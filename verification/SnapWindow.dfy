/**
 What ProcessSnap does to the window of retained snapshots, on values: which snapshot a delta counts
 from, what is stored, and what is purged.
 */
module SnapWindow {
  import opened Wire
  import opened Snapshot

  const DEFAULT_MAX_SNAPS := 16
  const MIN_MAX_SNAPS := 3

  /** WithMaxSnaps: a window that is missing or too small is replaced. */
  function Window(n: int): (max: nat)
    ensures max >= MIN_MAX_SNAPS && (n >= MIN_MAX_SNAPS ==> max == n) && (n <= 0 ==> max == 16)
    ensures 0 < n < MIN_MAX_SNAPS ==> max == MIN_MAX_SNAPS == 3
  {
    if n <= 0 then DEFAULT_MAX_SNAPS else if n < MIN_MAX_SNAPS then MIN_MAX_SNAPS else n
  }

  datatype Packet = Packet(tick: int, deltaTick: int, data: seq<byte>) {
    function BaseTick(): int {
      tick - deltaTick
    }
  }

  type Snaps = map<int, Snap>

  /** The base of a delta. A base that is not there counts as the empty snapshot. */
  function Base(snaps: Snaps, p: Packet): Snap {
    if p.deltaTick >= 0 && p.BaseTick() in snaps then snaps[p.BaseTick()] else map[]
  }

  function From<T>(snaps: map<int, T>, oldest: int): map<int, T> {
    map t | t in snaps && t >= oldest :: snaps[t]
  }

  /** Nothing that is older than the delta's base. */
  function Recent<T>(snaps: map<int, T>, p: Packet): map<int, T> {
    if p.deltaTick >= 0 then From(snaps, p.BaseTick()) else snaps
  }

  /** Drop what is older than the delta's base, then, when still too many are left, what is too old. */
  function Purge<T>(snaps: map<int, T>, p: Packet, max: nat): map<int, T> {
    var recent := Recent(snaps, p);
    if |recent| > max then From(recent, p.tick - max) else recent
  }

  function Store(snaps: Snaps, p: Packet, snap: Snap, max: nat): Snaps {
    Purge(snaps[p.tick := snap], p, max)
  }

  /** A payload that does not decode changes nothing. */
  function Process(snaps: Snaps, p: Packet, sizes: int -> int, stale: seq<int>, max: nat): Snaps {
    match ApplyBytes(Base(snaps, p), p.data, sizes, stale)
    case Failure(_) => snaps
    case Success(snap) => Store(snaps, p, snap, max)
  }

  /** A run of packets: before packet i the reused buffer holds stales[i], whatever that is. */
  function Run(snaps: Snaps, ps: seq<Packet>, stales: seq<seq<int>>, sizes: int -> int, max: nat): Snaps
    requires |ps| == |stales|
  {
    if ps == [] then snaps
    else
      var n := |ps| - 1;
      Process(Run(snaps, ps[..n], stales[..n], sizes, max), ps[n], sizes, stales[n], max)
  }

  // ---------- bounded retention

  predicate Increasing(ps: seq<Packet>) {
    forall i, j :: 0 <= i < j < |ps| ==> ps[i].tick < ps[j].tick
  }

  lemma {:induction false} Crowd(s: set<int>, low: int, n: nat)
    requires forall t :: t in s ==> low <= t < low + n
    ensures |s| <= n
    decreases n
  {
    if n == 0 {
      if t :| t in s {
      }
    } else {
      Crowd(s - {low}, low + 1, n - 1);
    }
  }

  /** When nothing stored is newer than the packet, at most max + 1 snapshots are left. */
  lemma PurgeBounds<T>(snaps: map<int, T>, p: Packet, max: nat)
    requires forall t :: t in snaps ==> t <= p.tick
    ensures |Purge(snaps, p, max)| <= max + 1
  {
    var kept := Purge(snaps, p, max);
    if forall t :: t in kept ==> t >= p.tick - max {
      Crowd(kept.Keys, p.tick - max, max + 1);
      assert |kept| == |kept.Keys|;
    }
  }

  predicate SinceBase(p: Packet, t: int) {
    p.deltaTick >= 0 ==> t >= p.BaseTick()
  }

  function SinceBaseOf(ticks: set<int>, p: Packet): set<int> {
    set t | t in ticks && SinceBase(p, t)
  }

  lemma RecentKeys(snaps: Snaps, p: Packet)
    ensures Recent(snaps, p).Keys == SinceBaseOf(snaps.Keys, p) && |Recent(snaps, p)| == |SinceBaseOf(snaps.Keys, p)|
    ensures forall t :: t in Recent(snaps, p) ==> t in snaps && Recent(snaps, p)[t] == snaps[t]
  {
    hide From;
    FromKeeps(snaps, p.BaseTick());
    var recent := Recent(snaps, p);
    assert forall t :: t in recent.Keys <==> t in SinceBaseOf(snaps.Keys, p);
    assert recent.Keys == SinceBaseOf(snaps.Keys, p);
    assert |recent| == |recent.Keys|;
  }

  /**
   A snapshot is kept, as it was, if and only if it is not older than the base, and, when more of these than the
   window holds are there with the new one, not more than max ticks older than the new one. So what a call drops is
   older than its own base or more than max ticks back, nothing older than the base survives a delta, and the
   snapshot just stored is still there.
   */
  lemma WhatStoreKeeps(snaps: Snaps, p: Packet, snap: Snap, max: nat)
    ensures var kept, crowded := Store(snaps, p, snap, max), |SinceBaseOf(snaps.Keys + {p.tick}, p)| > max;
      && p.tick in kept && kept[p.tick] == snap
      && (forall t :: t in kept && t != p.tick ==> t in snaps && kept[t] == snaps[t])
      && (forall t :: t in snaps ==> (t in kept <==> SinceBase(p, t) && (crowded ==> t >= p.tick - max)))
  {
    hide From, Recent;
    var stored := snaps[p.tick := snap];
    assert stored.Keys == snaps.Keys + {p.tick};
    RecentKeys(stored, p);
    FromKeeps(Recent(stored, p), p.tick - max);
  }

  lemma FromKeeps<T>(snaps: map<int, T>, oldest: int)
    ensures forall t :: t in From(snaps, oldest) <==> t in snaps && t >= oldest
    ensures forall t :: t in From(snaps, oldest) ==> From(snaps, oldest)[t] == snaps[t]
  {
  }

  lemma {:induction false} RunStaysBelow(ps: seq<Packet>, stales: seq<seq<int>>, sizes: int -> int, max: nat, t: int)
    requires |ps| == |stales| && t in Run(map[], ps, stales, sizes, max)
    ensures exists i :: 0 <= i < |ps| && ps[i].tick == t
  {
    hide ApplyBytes;
    if ps != [] {
      var n := |ps| - 1;
      if t != ps[n].tick {
        RunStaysBelow(ps[..n], stales[..n], sizes, max, t);
        var i :| 0 <= i < n && ps[..n][i].tick == t;
        assert ps[i].tick == t;
      } else {
        assert ps[n].tick == t;
      }
    }
  }

  /**
   Over every run with increasing ticks, whatever its payloads and the buffer hold, the store never holds
   more than max + 1 snapshots.
   */
  lemma {:induction false} BoundedRetention(ps: seq<Packet>, stales: seq<seq<int>>, sizes: int -> int, max: nat)
    requires |ps| == |stales| && Increasing(ps)
    ensures |Run(map[], ps, stales, sizes, max)| <= max + 1
  {
    hide ApplyBytes;
    if ps != [] {
      var n := |ps| - 1;
      var p := ps[n];
      BoundedRetention(ps[..n], stales[..n], sizes, max);
      var snaps := Run(map[], ps[..n], stales[..n], sizes, max);
      forall t | t in snaps ensures t < p.tick {
        RunStaysBelow(ps[..n], stales[..n], sizes, max, t);
        var i :| 0 <= i < n && ps[..n][i].tick == t;
        assert ps[i].tick < p.tick;
      }
      match ApplyBytes(Base(snaps, p), p.data, sizes, stales[n]) {
        case Failure(_) =>
        case Success(snap) => PurgeBounds(snaps[p.tick := snap], p, max);
      }
    }
  }

  /** The bound is reached: after max + 1 consecutive full snapshots, all of them are held. */
  function FullSnapshots(n: nat): (ps: seq<Packet>)
    ensures |ps| == n && forall i :: 0 <= i < n ==> ps[i] == Packet(i, -1, [])
  {
    seq(n, i => Packet(i, -1, []))
  }

  lemma StoreFull(snaps: Snaps, n: nat, max: nat)
    requires n <= max && |snaps| == n && forall t :: t in snaps <==> 0 <= t < n
    ensures Store(snaps, Packet(n, -1, []), map[], max) == snaps[n := map[]]
    ensures |snaps[n := map[]]| == n + 1
  {
    hide From;
    var stored := snaps[n := map[]];
    assert stored.Keys == snaps.Keys + {n};
    FromAll(stored, n - max);
  }

  lemma FromAll(snaps: Snaps, oldest: int)
    requires forall t :: t in snaps ==> t >= oldest
    ensures From(snaps, oldest) == snaps
  {
    assert forall t :: t in From(snaps, oldest) <==> t in snaps;
  }

  lemma {:induction false} RetentionBoundIsReached(n: nat, stales: seq<seq<int>>, sizes: int -> int, max: nat)
    requires n == |stales| <= max + 1
    ensures var snaps := Run(map[], FullSnapshots(n), stales, sizes, max);
      |snaps| == n && forall t :: t in snaps <==> 0 <= t < n
  {
    hide Store, FullSnapshots, ParseDelta;
    if n > 0 {
      var ps := FullSnapshots(n);
      RetentionBoundIsReached(n - 1, stales[..n - 1], sizes, max);
      assert ps[..n - 1] == FullSnapshots(n - 1);
      var before := Run(map[], ps[..n - 1], stales[..n - 1], sizes, max);
      StoreFull(before, n - 1, max);
      assert Run(map[], ps, stales, sizes, max) == before[n - 1 := map[]];
    }
  }
}
