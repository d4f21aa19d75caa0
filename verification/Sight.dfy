/**
 Who is in sight. The client keeps the characters of the latest and of the previous snapshot in two maps
 that it fills in turn; the events it derives from their difference rebuild the visible set.
 */
module Sight {
  import opened Wire

  /** The parts of a character that the events of this module look at. */
  datatype Character = Character(x: int, y: int, hookedPlayer: int)

  type Characters = map<int, Character>

  datatype Event =
    | EnterSight(id: int, x: int, y: int)
    | LeaveSight(id: int)
    | HookedBy(id: int)

  // ---------- the two maps

  /** A Go map: an object that is cleared and filled in place. */
  class CharMap {
    var m: Characters

    constructor ()
      ensures m == map[]
    {
      m := map[];
    }
  }

  class SnapState {
    var characters: CharMap?
    var prevCharacters: CharMap?
    var localCid: int
    ghost var log: seq<Characters>   // the snapshots handled so far
    ghost var events: seq<Event>     // and all events derived from them

    constructor ()
      ensures Valid() && Cur() == map[] && Prev() == map[]
      ensures Rebuilt() && log == [] && events == []
    {
      characters, prevCharacters, localCid := null, null, 0;
      log, events := [], [];
    }

    /** The two maps are never the same object. */
    ghost predicate Valid()
      reads this
    {
      characters != null ==> characters != prevCharacters
    }

    function Cur(): Characters
      reads this, characters
    {
      if characters == null then map[] else characters.m
    }

    function Prev(): Characters
      reads this, prevCharacters
    {
      if prevCharacters == null then map[] else prevCharacters.m
    }

    /** The map that has gone stale is cleared and filled; the other one becomes the previous one. */
    method UpdateFromSnap(chars: Characters)
      requires Valid()
      modifies this, prevCharacters
      ensures Valid() && Cur() == chars && Prev() == old(Cur())
      ensures characters == old(prevCharacters) || fresh(characters)
      ensures prevCharacters == old(characters) && localCid == old(localCid)
      ensures log == old(log) && events == old(events)
    {
      var newChars := prevCharacters;
      if newChars == null {
        newChars := new CharMap();
      } else {
        newChars.m := map[];
      }
      var todo: set<int> := chars.Keys;
      while todo != {}
        invariant forall id :: id in newChars.m <==> id in chars && id !in todo
        invariant forall id :: id in newChars.m ==> newChars.m[id] == chars[id]
        invariant newChars == old(prevCharacters) || fresh(newChars)
        invariant characters == old(characters) && Cur() == old(Cur()) && localCid == old(localCid)
        invariant log == old(log) && events == old(events)
        modifies newChars
      {
        SomeMember(todo);
        var id :| id in todo;
        newChars.m := newChars.m[id := chars[id]];
        todo := todo - {id};
      }
      SameMap(newChars.m, chars);
      prevCharacters := characters;
      characters := newChars;
    }

    /** The sight and hook events of the latest snapshot, in whatever order the maps are walked. */
    method DeriveSight() returns (evs: seq<Event>)
      requires Valid()
      ensures IsDiff(Prev(), Cur(), localCid, evs)
    {
      var enters := EntersOf(Prev(), Cur());
      var leaves := LeavesOf(Prev(), Cur());
      var hooks := HooksOf(Prev(), Cur(), localCid);
      evs := enters + leaves + hooks;
      DiffOfParts(Prev(), Cur(), localCid, enters, leaves, hooks);
    }

    /** All events so far, replayed from nothing, give who is in the latest snapshot. */
    ghost predicate Rebuilt()
      reads this, characters
    {
      Cur() == Before(log, |log|) && Replay({}, events) == Cur().Keys
    }

    /** A snapshot and the local tee's id in it: the maps are brought up to date, then the events are derived. */
    method HandleSnapshot(chars: Characters, local: int) returns (evs: seq<Event>)
      requires Valid() && Rebuilt()
      modifies this, prevCharacters
      ensures Valid() && Rebuilt() && localCid == local && IsDiff(old(Cur()), chars, local, evs)
      ensures log == old(log) + [chars] && events == old(events) + evs
    {
      hide IsDiff;
      localCid := local;
      UpdateFromSnap(chars);
      evs := DeriveSight();
      ReplayJoin({}, events, evs);
      DiffLeads(Prev(), Cur(), local, evs);
      log, events := log + [chars], events + evs;
    }
  }

  lemma SameMap(a: Characters, b: Characters)
    requires forall id :: id in a <==> id in b
    requires forall id :: id in a ==> a[id] == b[id]
    ensures a == b
  {
    assert forall id :: id in a <==> id in b;
    assert forall id :: id in a ==> a[id] == b[id];
  }

  // ---------- what the events are

  function EnterEvent(cur: Characters, id: int): Event
    requires id in cur
  {
    EnterSight(id, cur[id].x, cur[id].y)
  }

  predicate NewHook(prev: Characters, cur: Characters, localCid: int, id: int) {
    && id in cur && id != localCid && cur[id].hookedPlayer == localCid
    && !(id in prev && prev[id].hookedPlayer == localCid)
  }

  /** The event is due: somebody came, went, or began to hook the local tee. */
  predicate IsDue(prev: Characters, cur: Characters, localCid: int, e: Event) {
    match e
    case EnterSight(id, _, _) => id in cur && id !in prev && e == EnterEvent(cur, id)
    case LeaveSight(id) => id in prev && id !in cur
    case HookedBy(id) => NewHook(prev, cur, localCid, id)
  }

  /** Exactly the due events, each of them once. */
  ghost predicate IsDiff(prev: Characters, cur: Characters, localCid: int, evs: seq<Event>) {
    && (forall e :: e in evs <==> IsDue(prev, cur, localCid, e))
    && forall i, j :: 0 <= i < j < |evs| ==> evs[i] != evs[j]
  }

  /** The ids still to look at, or done with an event in the list. */
  method EntersOf(prev: Characters, cur: Characters) returns (evs: seq<Event>)
    ensures forall e :: e in evs <==> e.EnterSight? && IsDue(prev, cur, 0, e)
    ensures forall i, j :: 0 <= i < j < |evs| ==> evs[i] != evs[j]
  {
    evs := [];
    var todo: set<int> := cur.Keys;
    while todo != {}
      invariant todo <= cur.Keys
      invariant forall e :: e in evs <==> e.EnterSight? && IsDue(prev, cur, 0, e) && e.id !in todo
      invariant forall i, j :: 0 <= i < j < |evs| ==> evs[i] != evs[j]
    {
      SomeMember(todo);
      var id :| id in todo;
      if id !in prev {
        evs := evs + [EnterEvent(cur, id)];
      }
      todo := todo - {id};
    }
  }

  method LeavesOf(prev: Characters, cur: Characters) returns (evs: seq<Event>)
    ensures forall e :: e in evs <==> e.LeaveSight? && IsDue(prev, cur, 0, e)
    ensures forall i, j :: 0 <= i < j < |evs| ==> evs[i] != evs[j]
  {
    evs := [];
    var todo: set<int> := prev.Keys;
    while todo != {}
      invariant todo <= prev.Keys
      invariant forall e :: e in evs <==> e.LeaveSight? && IsDue(prev, cur, 0, e) && e.id !in todo
      invariant forall i, j :: 0 <= i < j < |evs| ==> evs[i] != evs[j]
    {
      SomeMember(todo);
      var id :| id in todo;
      if id !in cur {
        evs := evs + [LeaveSight(id)];
      }
      todo := todo - {id};
    }
  }

  method HooksOf(prev: Characters, cur: Characters, localCid: int) returns (evs: seq<Event>)
    ensures forall e :: e in evs <==> e.HookedBy? && IsDue(prev, cur, localCid, e)
    ensures forall i, j :: 0 <= i < j < |evs| ==> evs[i] != evs[j]
  {
    evs := [];
    var todo: set<int> := cur.Keys;
    while todo != {}
      invariant todo <= cur.Keys
      invariant forall e :: e in evs <==> e.HookedBy? && IsDue(prev, cur, localCid, e) && e.id !in todo
      invariant forall i, j :: 0 <= i < j < |evs| ==> evs[i] != evs[j]
    {
      SomeMember(todo);
      var id :| id in todo;
      if !(id == localCid || cur[id].hookedPlayer != localCid) && !(id in prev && prev[id].hookedPlayer == localCid) {
        evs := evs + [HookedBy(id)];
      }
      todo := todo - {id};
    }
  }

  lemma DiffOfParts(prev: Characters, cur: Characters, localCid: int, enters: seq<Event>, leaves: seq<Event>,
                    hooks: seq<Event>)
    requires forall e :: e in enters <==> e.EnterSight? && IsDue(prev, cur, 0, e)
    requires forall e :: e in leaves <==> e.LeaveSight? && IsDue(prev, cur, 0, e)
    requires forall e :: e in hooks <==> e.HookedBy? && IsDue(prev, cur, localCid, e)
    requires forall i, j :: 0 <= i < j < |enters| ==> enters[i] != enters[j]
    requires forall i, j :: 0 <= i < j < |leaves| ==> leaves[i] != leaves[j]
    requires forall i, j :: 0 <= i < j < |hooks| ==> hooks[i] != hooks[j]
    ensures IsDiff(prev, cur, localCid, enters + leaves + hooks)
  {
    var evs := enters + leaves + hooks;
    forall e ensures e in evs <==> IsDue(prev, cur, localCid, e) {
      assert e in evs <==> e in enters || e in leaves || e in hooks;
    }
    forall i, j | 0 <= i < j < |evs| ensures evs[i] != evs[j] {
      assert i < |enters| ==> evs[i] in enters;
      assert |enters| <= i < |enters| + |leaves| ==> evs[i] in leaves;
      assert |enters| + |leaves| <= j ==> evs[j] in hooks;
      assert |enters| <= j < |enters| + |leaves| ==> evs[j] in leaves;
    }
  }

  // ---------- replaying them

  function Replay(visible: set<int>, evs: seq<Event>): set<int> {
    if evs == [] then visible
    else
      var v := Replay(visible, evs[..|evs| - 1]);
      match evs[|evs| - 1]
      case EnterSight(id, _, _) => v + {id}
      case LeaveSight(id) => v - {id}
      case HookedBy(_) => v
  }

  /** As long as nobody both enters and leaves, the order does not matter. */
  lemma {:induction false} ReplayIs(visible: set<int>, evs: seq<Event>, id: int)
    requires forall a, b :: a in evs && b in evs && a.EnterSight? && b.LeaveSight? ==> a.id != b.id
    ensures id in Replay(visible, evs)
      <==> (id in visible && LeaveSight(id) !in evs) || exists e :: e in evs && e.EnterSight? && e.id == id
  {
    if evs != [] {
      var front, last := evs[..|evs| - 1], evs[|evs| - 1];
      assert forall e :: e in evs <==> e in front || e == last;
      ReplayIs(visible, front, id);
    }
  }

  /** The events of one snapshot turn the previous visible set into the present one. */
  lemma DiffLeads(prev: Characters, cur: Characters, localCid: int, evs: seq<Event>)
    requires IsDiff(prev, cur, localCid, evs)
    ensures Replay(prev.Keys, evs) == cur.Keys
  {
    forall id ensures id in Replay(prev.Keys, evs) <==> id in cur.Keys {
      ReplayIs(prev.Keys, evs, id);
      assert LeaveSight(id) in evs <==> id in prev && id !in cur;
      if id in cur && id !in prev {
        assert EnterEvent(cur, id) in evs;
      }
    }
  }

  /** The snapshot before the k-th; before the first there is nobody. */
  function Before(snaps: seq<Characters>, k: nat): Characters
    requires k <= |snaps|
  {
    if k == 0 then map[] else snaps[k - 1]
  }

  /** Every snapshot's events are the difference from the snapshot before it. */
  ghost predicate IsRun(snaps: seq<Characters>, locals: seq<int>, evss: seq<seq<Event>>) {
    && |snaps| == |locals| == |evss|
    && forall k :: 0 <= k < |snaps| ==> IsDiff(Before(snaps, k), snaps[k], locals[k], evss[k])
  }

  function Flatten(evss: seq<seq<Event>>): seq<Event> {
    if evss == [] then [] else Flatten(evss[..|evss| - 1]) + evss[|evss| - 1]
  }

  lemma {:induction false} ReplayJoin(visible: set<int>, a: seq<Event>, b: seq<Event>)
    ensures Replay(visible, a + b) == Replay(Replay(visible, a), b)
  {
    if b == [] {
      assert a + b == a;
    } else {
      ReplayJoin(visible, a, b[..|b| - 1]);
      assert (a + b)[..|a + b| - 1] == a + b[..|b| - 1];
    }
  }

  /** In every run, replaying all enter and leave events so far gives exactly who is in the latest snapshot. */
  lemma {:induction false} EventsRebuildSight(snaps: seq<Characters>, locals: seq<int>, evss: seq<seq<Event>>, k: nat)
    requires IsRun(snaps, locals, evss) && k <= |snaps|
    ensures Replay({}, Flatten(evss[..k])) == Before(snaps, k).Keys
  {
    hide IsDiff;
    if k > 0 {
      EventsRebuildSight(snaps, locals, evss, k - 1);
      assert evss[..k][..k - 1] == evss[..k - 1];
      ReplayJoin({}, Flatten(evss[..k - 1]), evss[k - 1]);
      DiffLeads(Before(snaps, k - 1), snaps[k - 1], locals[k - 1], evss[k - 1]);
    }
  }

  /** A character hooks the local tee. */
  predicate Hooks(cs: Characters, id: int, local: int) {
    id in cs && id != local && cs[id].hookedPlayer == local
  }

  /** Every event is true of its snapshot: who comes is at that place, who hooks hooks the local tee. */
  lemma EventsAreTrue(snaps: seq<Characters>, locals: seq<int>, evss: seq<seq<Event>>, k: nat, e: Event)
    requires IsRun(snaps, locals, evss) && k < |snaps| && e in evss[k]
    ensures e.EnterSight? ==> e.id in snaps[k] && snaps[k][e.id].x == e.x && snaps[k][e.id].y == e.y
    ensures e.LeaveSight? ==> e.id !in snaps[k]
    ensures e.HookedBy? ==> Hooks(snaps[k], e.id, locals[k])
  {
    assert IsDiff(Before(snaps, k), snaps[k], locals[k], evss[k]);
  }

  lemma HookEvent(snaps: seq<Characters>, locals: seq<int>, evss: seq<seq<Event>>, k: nat, id: int)
    requires IsRun(snaps, locals, evss) && k < |snaps|
    ensures HookedBy(id) in evss[k]
      <==> Hooks(snaps[k], id, locals[k]) && !(k > 0 && Hooks(snaps[k - 1], id, locals[k]))
  {
    assert IsDiff(Before(snaps, k), snaps[k], locals[k], evss[k]);
    assert HookedBy(id) in evss[k] <==> IsDue(Before(snaps, k), snaps[k], locals[k], HookedBy(id));
  }

  /**
   Whoever hooks the local tee was announced at the snapshot where that began, and not again since, as long as the
   local tee's id stays the same.
   */
  lemma {:induction false} HookIsAnnounced(snaps: seq<Characters>, locals: seq<int>, evss: seq<seq<Event>>, k: nat,
                                           id: int, local: int) returns (j: nat)
    requires IsRun(snaps, locals, evss) && k < |snaps| == |locals| == |evss| && Hooks(snaps[k], id, local)
    requires forall i :: 0 <= i <= k ==> locals[i] == local
    ensures j <= k && HookedBy(id) in evss[j] && !(j > 0 && Hooks(snaps[j - 1], id, local))
    ensures forall i :: j <= i <= k ==> Hooks(snaps[i], id, local)
    ensures forall i :: j < i <= k ==> HookedBy(id) !in evss[i]
  {
    hide IsRun, Hooks;
    HookEvent(snaps, locals, evss, k, id);
    if k > 0 && Hooks(snaps[k - 1], id, local) {
      j := HookIsAnnounced(snaps, locals, evss, k - 1, id, local);
    } else {
      j := k;
    }
  }
}
