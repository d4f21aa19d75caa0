/** The storage of recent snapshots: ProcessSnap on the heap, proved to be SnapWindow.Process. */
module SnapStorage {
  import opened Wire
  import opened Spec = Snapshot
  import opened SnapWindow
  import opened ApplyDelta

  ghost function ArraysOf(snapshots: map<int, TickSnap>): set<object>
    reads snapshots.Values
  {
    set t, i | t in snapshots && 0 <= i < |snapshots[t].items| :: snapshots[t].items[i].fields.arr as object
  }

  /** Each stored snapshot is the view's snapshot for its tick. */
  ghost predicate ShowsAll(snapshots: map<int, TickSnap>, view: Snaps)
    reads snapshots.Values, ArraysOf(snapshots)
  {
    && snapshots.Keys == view.Keys
    && forall t :: t in snapshots ==> ShowsAt(snapshots, t, view)
  }

  ghost predicate ShowsAt(snapshots: map<int, TickSnap>, t: int, view: Snaps)
    requires t in snapshots && t in view
    reads snapshots[t], Arrays(snapshots[t].items)
  {
    Shows(snapshots[t].items, view[t])
  }

  lemma ShowsPurged(snapshots: map<int, TickSnap>, view: Snaps, p: Packet, max: nat)
    requires ShowsAll(snapshots, view)
    ensures ShowsAll(Purge(snapshots, p, max), Purge(view, p, max))
  {
    hide Shows;
    ShowsFrom(snapshots, view, p.BaseTick());
    var recent, recentView := if p.deltaTick >= 0 then From(snapshots, p.BaseTick()) else snapshots,
      if p.deltaTick >= 0 then From(view, p.BaseTick()) else view;
    assert |recent.Keys| == |recentView.Keys|;
    ShowsFrom(recent, recentView, p.tick - max);
  }

  lemma ShowsFrom(snapshots: map<int, TickSnap>, view: Snaps, oldest: int)
    requires ShowsAll(snapshots, view)
    ensures ShowsAll(From(snapshots, oldest), From(view, oldest))
  {
    hide Shows;
    assert forall t :: t in snapshots ==> ShowsAt(snapshots, t, view);
  }

  lemma ShowsStored(snapshots: map<int, TickSnap>, view: Snaps, t: int, s: TickSnap, snap: Snap)
    requires ShowsAll(snapshots, view) && Shows(s.items, snap)
    ensures ShowsAll(snapshots[t := s], view[t := snap])
    ensures ArraysOf(snapshots[t := s]) <= ArraysOf(snapshots) + Arrays(s.items)
  {
    hide Shows;
    assert forall u :: u in snapshots ==> ShowsAt(snapshots, u, view);
  }

  lemma ArraysOfPurged(snapshots: map<int, TickSnap>, p: Packet, max: nat)
    ensures ArraysOf(Purge(snapshots, p, max)) <= ArraysOf(snapshots)
  {
  }

  lemma ShowsAllOneMap(snapshots: map<int, TickSnap>, a: Snaps, b: Snaps)
    requires ShowsAll(snapshots, a) && ShowsAll(snapshots, b)
    ensures a == b
  {
    hide Shows;
    forall t | t in a ensures a[t] == b[t] {
      assert ShowsAt(snapshots, t, a) && ShowsAt(snapshots, t, b);
      ShowsOneMap(snapshots[t].items, a[t], b[t]);
    }
  }

  lemma ShownIsValid(snapshots: map<int, TickSnap>, view: Snaps, t: int)
    requires ShowsAll(snapshots, view) && t in snapshots
    ensures snapshots[t].Valid()
  {
    assert ShowsAt(snapshots, t, view);
    assert forall i :: 0 <= i < |snapshots[t].items| ==> ShowsItem(snapshots[t].items[i], view[t]);
  }

  class SnapStorage {
    var snaps: map<int, TickSnap>
    const maxSnaps: nat
    var lastTick: int
    const sizes: int -> int

    /** The window is configured with WithMaxSnaps; no option is the same as 0. */
    constructor (sizes: int -> int, window: int)
      ensures Valid() && View() == map[] && this.sizes == sizes && maxSnaps == Window(window)
    {
      snaps, lastTick := map[], 0;
      maxSnaps, this.sizes := Window(window), sizes;
    }

    ghost predicate Valid()
      reads this, snaps.Values
    {
      forall t :: t in snaps ==> snaps[t].Valid()
    }

    /** The stored snapshots as maps. */
    ghost function View(): (view: Snaps)
      requires Valid()
      reads this, snaps.Values, ArraysOf(snaps)
      ensures ShowsAll(snaps, view)
    {
      map t | t in snaps :: snaps[t].View()
    }

    /** No stored snapshot has fields in the scratch's buffer. */
    ghost predicate Apart(sc: Scratch)
      reads this, snaps.Values, sc
    {
      sc.df !in ArraysOf(snaps)
    }

    method PurgeBelow(oldest: int)
      modifies `snaps
      ensures snaps == From(old(snaps), oldest)
    {
      var todo: set<int> := snaps.Keys;
      while todo != {}
        invariant todo <= old(snaps).Keys
        invariant forall t :: t in snaps <==> t in old(snaps) && (t >= oldest || t in todo)
        invariant forall t :: t in snaps ==> snaps[t] == old(snaps)[t]
      {
        SomeMember(todo);
        var t :| t in todo;
        if t < oldest {
          snaps := snaps - {t};
        }
        todo := todo - {t};
      }
      assert forall t :: t in snaps <==> t in From(old(snaps), oldest);
    }

    method PurgeAfter(p: Packet)
      modifies `snaps
      ensures snaps == Purge(old(snaps), p, maxSnaps)
    {
      if p.deltaTick >= 0 {
        PurgeBelow(p.BaseTick());
      }
      if |snaps| > maxSnaps {
        PurgeBelow(p.tick - maxSnaps);
      }
    }

    method BaseOf(p: Packet) returns (base: TickSnap)
      requires Valid()
      ensures base.Valid() && base.View() == Base(View(), p)
      ensures (p.deltaTick >= 0 && p.BaseTick() in snaps && base == snaps[p.BaseTick()]) || base.items == []
    {
      if p.deltaTick >= 0 && p.BaseTick() in snaps {
        base := snaps[p.BaseTick()];
      } else {
        base := new TickSnap(p.BaseTick(), []);
      }
    }

    method Keep(p: Packet, s: TickSnap, ghost view: Snaps, ghost snap: Snap)
      requires ShowsAll(snaps, view) && Shows(s.items, snap)
      modifies this
      ensures ShowsAll(snaps, Store(view, p, snap, maxSnaps)) && lastTick == p.tick
      ensures ArraysOf(snaps) <= ArraysOf(old(snaps)) + Arrays(s.items)
    {
      hide Shows, Purge;
      ghost var before := snaps;
      assert this !in ArraysOf(before) && this !in Arrays(s.items);
      snaps := snaps[p.tick := s];
      lastTick := p.tick;
      PurgeAfter(p);
      assert ShowsAll(before, view) && Shows(s.items, snap);
      ShowsStored(before, view, p.tick, s, snap);
      ShowsPurged(before[p.tick := s], view[p.tick := snap], p, maxSnaps);
      ArraysOfPurged(before[p.tick := s], p, maxSnaps);
    }

    /** Finds the base and decodes; the stored snapshots stay as they are. */
    method Rebuild(p: Packet, sc: Scratch, ghost view: Snaps) returns (r: Result<TickSnap>)
      requires Valid() && View() == view && sc.Clean() && Apart(sc)
      modifies sc, sc.df, sc.u
      ensures ShowsAll(snaps, view)
      ensures sc.Clean() && Apart(sc) && (sc.df == old(sc.df) || fresh(sc.df))
      ensures match ApplyBytes(Base(view, p), p.data, sizes, old(sc.df[..]))
        case Failure(e) => r == Failure(e)
        case Success(snap) =>
          && r.Success? && fresh(r.value) && r.value.tick == p.tick && Shows(r.value.items, snap)
          && sc.df !in Arrays(r.value.items)
    {
      hide ApplyBytes, Shows, ShowsAll, MapOf, NewFieldsApart;
      var base := BaseOf(p);
      assert sc !in ArraysOf(snaps) && sc.u !in ArraysOf(snaps);
      r := ApplyDelta.Apply(base, p.tick, p.data, sizes, sc);
    }

    /**
     ProcessSnap. The stored snapshots become what Process makes of them; a payload that does not decode
     changes nothing; nothing but the storage itself and the scratch is written to.
     */
    method ProcessSnap(p: Packet, sc: Scratch) returns (r: Result<TickSnap>)
      requires Valid() && sc.Clean() && Apart(sc)
      modifies this, sc, sc.df, sc.u
      ensures Valid() && sc.Clean() && Apart(sc) && (sc.df == old(sc.df) || fresh(sc.df))
      ensures View() == Process(old(View()), p, sizes, old(sc.df[..]), maxSnaps)
      ensures ShowsAll(old(snaps), old(View()))
      ensures match ApplyBytes(Base(old(View()), p), p.data, sizes, old(sc.df[..]))
        case Failure(e) => r == Failure(e) && snaps == old(snaps) && lastTick == old(lastTick)
        case Success(snap) =>
          && r.Success? && fresh(r.value) && r.value.tick == p.tick && lastTick == p.tick
          && r.value.Valid() && r.value.View() == snap && sc.df !in Arrays(r.value.items)
    {
      hide ApplyBytes, Shows, ShowsAll, Store, MapOf, Base;
      ghost var view := View();
      r := Rebuild(p, sc, view);
      if r.Failure? {
        ViewIs(view);
        return;
      }
      ghost var snap := ApplyBytes(Base(view, p), p.data, sizes, old(sc.df[..])).value;
      assert this !in Arrays(r.value.items);
      ghost var before := snaps;
      assert this !in ArraysOf(before);
      Keep(p, r.value, view, snap);
      ViewIs(Store(view, p, snap, maxSnaps));
      ItemsAre(r.value, snap);
    }

    /** What packet i of a run decodes to, counted from what the store holds then. */
    ghost function Outcome(start: Snaps, ps: seq<Packet>, stales: seq<seq<int>>, i: nat): Result<Snap>
      requires i < |ps| == |stales|
    {
      ApplyBytes(Base(Run(start, ps[..i], stales[..i], sizes, maxSnaps), ps[i]), ps[i].data, sizes, stales[i])
    }

    /** The run stores what packet i decodes to, or stays as it is when it does not decode. */
    lemma OutcomeIsStored(start: Snaps, ps: seq<Packet>, stales: seq<seq<int>>, i: nat)
      requires i < |ps| == |stales|
      ensures var after := Run(start, ps[..i + 1], stales[..i + 1], sizes, maxSnaps);
        match Outcome(start, ps, stales, i)
        case Failure(_) => after == Run(start, ps[..i], stales[..i], sizes, maxSnaps)
        case Success(snap) => ps[i].tick in after && after[ps[i].tick] == snap
    {
      hide ApplyBytes;
      RunNext(start, ps, stales, i);
    }

    lemma RunNext(start: Snaps, ps: seq<Packet>, stales: seq<seq<int>>, i: nat)
      requires i < |ps| == |stales|
      ensures Run(start, ps[..i + 1], stales[..i + 1], sizes, maxSnaps)
        == Process(Run(start, ps[..i], stales[..i], sizes, maxSnaps), ps[i], sizes, stales[i], maxSnaps)
    {
      hide Process;
      assert ps[..i + 1][..i] == ps[..i] && stales[..i + 1][..i] == stales[..i];
    }

    /** One call; the snapshots handed out so far, `out`, show what they showed. */
    method ProcessNext(p: Packet, sc: Scratch, ghost out: seq<Result<TickSnap>>, ghost views: seq<Result<Snap>>)
      returns (r: Result<TickSnap>)
      requires Valid() && sc.Clean() && Apart(sc) && Emits(out, views) && sc.df !in EmittedArrays(out)
      modifies this, sc, sc.df, sc.u
      ensures Valid() && sc.Clean() && Apart(sc) && (sc.df == old(sc.df) || fresh(sc.df))
      ensures View() == Process(old(View()), p, sizes, old(sc.df[..]), maxSnaps)
      ensures Emits(out + [r], views + [ApplyBytes(Base(old(View()), p), p.data, sizes, old(sc.df[..]))])
      ensures sc.df !in EmittedArrays(out + [r])
    {
      hide ApplyBytes, Shows, ShowsAll, MapOf, Process, Base, Valid, View, Apart, Emits, Scratch.Clean;
      assert sc !in EmittedArrays(out) && sc.u !in EmittedArrays(out) && this !in EmittedArrays(out);
      ghost var handedOut: set<object> := Emitted(out);
      assert {this as object, sc, sc.df, sc.u} !! handedOut;
      ghost var outcome := ApplyBytes(Base(View(), p), p.data, sizes, sc.df[..]);
      r := ProcessSnap(p, sc);
      if r.Success? {
        ItemsShow(r.value);
      }
      assert Emits(out, views);
      EmitsNext(out, views, r, outcome);
    }

    /**
     Any number of calls, with one scratch for all of them, whatever their payloads. The storage ends as the
     run on values says; each call answers what its packet decodes to, counted from the store at that moment;
     and every snapshot handed out on the way, purged since or not, still shows what it showed then.
     */
    method ProcessAll(ps: seq<Packet>, sc: Scratch) returns (out: seq<Result<TickSnap>>, ghost stales: seq<seq<int>>)
      requires Valid() && sc.Clean() && Apart(sc)
      modifies this, sc, sc.df, sc.u
      ensures |out| == |stales| == |ps|
      ensures Valid() && View() == Run(old(View()), ps, stales, sizes, maxSnaps)
      ensures forall i :: 0 <= i < |ps| ==> Reports(out[i], Outcome(old(View()), ps, stales, i))
      ensures old(snaps) == map[] && Increasing(ps) ==> |snaps| <= maxSnaps + 1
    {
      hide ApplyBytes, Shows, ShowsAll, MapOf, Store, Run, Process, Base, Outcome, Valid, View, Emits, Scratch.Clean;
      ghost var start := View();
      SizeIs();
      ghost var views: seq<Result<Snap>> := [];
      out, stales := [], [];
      NothingEmitted();
      RunNothing(start);
      for i := 0 to |ps|
        invariant Valid() && sc.Clean() && Apart(sc) && (sc.df == old(sc.df) || fresh(sc.df))
        invariant |out| == |views| == |stales| == i
        invariant View() == Run(start, ps[..i], stales, sizes, maxSnaps)
        invariant Emits(out, views) && sc.df !in EmittedArrays(out)
        invariant Outcomes(start, ps[..i], stales, views)
      {
        ghost var stale := sc.df[..];
        ghost var outcome := ApplyBytes(Base(View(), ps[i]), ps[i].data, sizes, stale);
        var r := ProcessNext(ps[i], sc, out, views);
        OutcomesNext(start, ps, stales, views, i, stale, outcome);
        views, out, stales := views + [outcome], out + [r], stales + [stale];
      }
      assert ps[..|ps|] == ps;
      forall i | 0 <= i < |ps| ensures Reports(out[i], Outcome(start, ps, stales, i)) {
        OutcomesAt(start, ps, stales, views, i);
        EmittedIs(out, views, i);
      }
      if old(snaps) == map[] && Increasing(ps) {
        SizeIs();
        BoundedRetention(ps, stales, sizes, maxSnaps);
      }
    }

    ghost predicate Outcomes(start: Snaps, ps: seq<Packet>, stales: seq<seq<int>>, views: seq<Result<Snap>>) {
      |ps| == |stales| == |views| && forall i :: 0 <= i < |ps| ==> views[i] == Outcome(start, ps, stales, i)
    }

    lemma OutcomesAt(start: Snaps, ps: seq<Packet>, stales: seq<seq<int>>, views: seq<Result<Snap>>, i: nat)
      requires Outcomes(start, ps, stales, views) && i < |ps|
      ensures views[i] == Outcome(start, ps, stales, i)
    {
    }

    lemma OutcomesNext(start: Snaps, ps: seq<Packet>, stales: seq<seq<int>>, views: seq<Result<Snap>>, i: nat,
        stale: seq<int>, outcome: Result<Snap>)
      requires i < |ps| && Outcomes(start, ps[..i], stales, views)
      requires outcome == ApplyBytes(Base(Run(start, ps[..i], stales, sizes, maxSnaps), ps[i]), ps[i].data, sizes, stale)
      ensures Outcomes(start, ps[..i + 1], stales + [stale], views + [outcome])
      ensures Run(start, ps[..i + 1], stales + [stale], sizes, maxSnaps)
        == Process(Run(start, ps[..i], stales, sizes, maxSnaps), ps[i], sizes, stale, maxSnaps)
    {
      hide ApplyBytes, Base, Process;
      var qs, ts := ps[..i + 1], stales + [stale];
      assert qs[..i] == ps[..i] && ts[..i] == stales;
      forall j | 0 <= j <= i ensures (views + [outcome])[j] == Outcome(start, qs, ts, j) {
        if j < i {
          assert qs[..j] == ps[..i][..j] && ts[..j] == stales[..j];
          assert views[j] == Outcome(start, ps[..i], stales, j);
        }
      }
    }

    lemma SizeIs()
      requires Valid()
      ensures |snaps| == |View()| && (snaps == map[] ==> View() == map[])
    {
      assert |snaps.Keys| == |View().Keys|;
    }

    lemma RunNothing(start: Snaps)
      ensures Run(start, [], [], sizes, maxSnaps) == start && Outcomes(start, [], [], [])
    {
    }

    lemma ViewIs(view: Snaps)
      requires ShowsAll(snaps, view)
      ensures Valid() && View() == view
    {
      hide Shows, ShowsAll;
      forall t | t in snaps ensures snaps[t].Valid() {
        ShowsKeys(snaps, view);
        ShownIsValid(snaps, view, t);
      }
      ShowsAllOneMap(snaps, View(), view);
    }
  }

  // ---------- the snapshots handed out so far

  ghost function Emitted(out: seq<Result<TickSnap>>): set<TickSnap> {
    set i | 0 <= i < |out| && out[i].Success? :: out[i].value
  }

  ghost function EmittedArrays(out: seq<Result<TickSnap>>): set<object>
    reads Emitted(out)
  {
    set s, j | s in Emitted(out) && 0 <= j < |s.items| :: s.items[j].fields.arr as object
  }

  ghost predicate Emits(out: seq<Result<TickSnap>>, views: seq<Result<Snap>>)
    reads Emitted(out), EmittedArrays(out)
  {
    && |out| == |views|
    && forall i :: 0 <= i < |out| ==>
      match out[i]
      case Failure(e) => views[i] == Failure(e)
      case Success(s) => views[i].Success? && Shows(s.items, views[i].value)
  }

  /** The answer is that outcome: the same snapshot, or the same error. */
  ghost predicate Reports(r: Result<TickSnap>, outcome: Result<Snap>)
    reads Emitted([r]), EmittedArrays([r])
  {
    assert r.Success? ==> [r][0].value in Emitted([r]);
    match r
    case Failure(e) => outcome == Failure(e)
    case Success(s) => s.Valid() && outcome == Success(s.View())
  }

  lemma NothingEmitted()
    ensures Emits([], []) && EmittedArrays([]) == {}
  {
  }

  lemma EmitsNext(out: seq<Result<TickSnap>>, views: seq<Result<Snap>>, r: Result<TickSnap>, outcome: Result<Snap>)
    requires Emits(out, views)
    requires match r
      case Failure(e) => outcome == Failure(e)
      case Success(s) => outcome.Success? && Shows(s.items, outcome.value)
    ensures Emits(out + [r], views + [outcome])
    ensures EmittedArrays(out + [r]) <= EmittedArrays(out) + EmittedArrays([r])
  {
    hide Shows;
  }

  lemma EmittedIs(out: seq<Result<TickSnap>>, views: seq<Result<Snap>>, i: nat)
    requires Emits(out, views) && i < |out|
    ensures Reports(out[i], views[i])
  {
    hide Shows;
    if out[i].Success? {
      ItemsAre(out[i].value, views[i].value);
    }
  }

  lemma ItemsShow(s: TickSnap)
    requires s.Valid()
    ensures Shows(s.items, s.View())
  {
  }

  lemma ShowsKeys(snapshots: map<int, TickSnap>, view: Snaps)
    requires ShowsAll(snapshots, view)
    ensures snapshots.Keys == view.Keys
  {
  }

  lemma ItemsAre(s: TickSnap, snap: Snap)
    requires Shows(s.items, snap)
    ensures s.Valid() && s.View() == snap
  {
    assert forall i :: 0 <= i < |s.items| ==> ShowsItem(s.items[i], snap);
    ShowsOneMap(s.items, MapOf(s.items), snap);
  }
}
