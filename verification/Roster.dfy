/**
 The registry of players of a 0.6 session. The snapshot says who is there (client infos) and what their
 scores and teams are (player infos); the client turns differences into events and the events into
 insertions, updates and removals.
 */
module Roster {
  import opened Wire

  /** Name, clan and country, and the skin as the snapshot's ints. */
  datatype ClientInfo = ClientInfo(id: int, name: string, clan: string, country: int, skinInts: seq<int>)

  datatype PlayerInfo = PlayerInfo(score: int, team: int)

  /** What a snapshot says about players. The decoder of skin ints is not part of this model. */
  datatype Snapshot = Snapshot(infos: seq<ClientInfo>, players: map<int, PlayerInfo>)

  type SkinOf = seq<int> -> string

  datatype Event =
    | Join(id: int, name: string, clan: string, country: int, skin: string, team: int)
    | Leave(id: int)
    | ScoreChange(id: int, score: int)
    | TeamSet(id: int, team: int)
    | SkinChange(id: int, skin: string)

  datatype Player = Player(name: string, clan: string, country: int, skin: string, team: int, score: int, local: bool)

  type Registry = map<int, Player>

  /** A record without an identity, for a score or a team that comes first. */
  function Unknown(id: int, local: int): Player {
    Player("", "", 0, "", 0, 0, id == local)
  }

  function RecordOf(r: Registry, id: int, local: int): Player {
    if id in r then r[id] else Unknown(id, local)
  }

  /** applyToRegistry. A join takes over everything but the score, the event's team included. */
  function ApplyEvent(r: Registry, e: Event, local: int): Registry {
    match e
    case Join(id, name, clan, country, skin, team) =>
      r[id := Player(name, clan, country, skin, team, RecordOf(r, id, local).score, id == local)]
    case Leave(id) => r - {id}
    case ScoreChange(id, score) => r[id := RecordOf(r, id, local).(score := score)]
    case TeamSet(id, team) => r[id := RecordOf(r, id, local).(team := team)]
    case SkinChange(id, skin) => if id in r then r[id := r[id].(skin := skin)] else r
  }

  function ApplyAll(r: Registry, evs: seq<Event>, local: int): Registry {
    if evs == [] then r else ApplyEvent(ApplyAll(r, evs[..|evs| - 1], local), evs[|evs| - 1], local)
  }

  lemma {:induction false} ApplyJoin(r: Registry, a: seq<Event>, b: seq<Event>, local: int)
    ensures ApplyAll(r, a + b, local) == ApplyAll(ApplyAll(r, a, local), b, local)
  {
    hide ApplyEvent;
    if b == [] {
      assert a + b == a;
    } else {
      ApplyJoin(r, a, b[..|b| - 1], local);
      assert (a + b)[..|a + b| - 1] == a + b[..|b| - 1];
    }
  }

  // ---------- the events of a snapshot

  predicate ScoreChanged(prev: map<int, PlayerInfo>, cur: map<int, PlayerInfo>, id: int) {
    id in prev && id in cur && prev[id].score != cur[id].score
  }

  predicate TeamChanged(prev: map<int, PlayerInfo>, cur: map<int, PlayerInfo>, id: int) {
    id in prev && id in cur && prev[id].team != cur[id].team
  }

  /** The players whose score or team changed. */
  function Changed(prev: map<int, PlayerInfo>, cur: map<int, PlayerInfo>): set<int> {
    set id | id in cur && (ScoreChanged(prev, cur, id) || TeamChanged(prev, cur, id))
  }

  predicate IsScoreEvent(prev: map<int, PlayerInfo>, cur: map<int, PlayerInfo>, e: Event) {
    match e
    case ScoreChange(id, score) => ScoreChanged(prev, cur, id) && score == cur[id].score
    case TeamSet(id, team) => TeamChanged(prev, cur, id) && team == cur[id].team
    case _ => false
  }

  /**
   A join is meant to keep the score and the team of somebody who is registered already. It keeps the score,
   and the team exactly when the event happens to carry the same one.
   */
  lemma JoinKeepsTeamIff(r: Registry, e: Event, local: int)
    requires e.Join? && e.id in r
    ensures var p := ApplyEvent(r, e, local)[e.id];
      p.score == r[e.id].score && (p.team == r[e.id].team <==> e.team == r[e.id].team)
  {
  }

  /** One client info: a join when it is new, a skin change when the skin is. It knows no team, so a join has 0. */
  function InfoEvents(i: ClientInfo, ids: set<int>, skins: map<int, seq<int>>, skinOf: SkinOf): seq<Event> {
    if i.id !in ids then [Join(i.id, i.name, i.clan, i.country, skinOf(i.skinInts), 0)]
    else if i.id in skins && skins[i.id] != i.skinInts then [SkinChange(i.id, skinOf(i.skinInts))]
    else []
  }

  function AllInfoEvents(infos: seq<ClientInfo>, ids: set<int>, skins: map<int, seq<int>>, skinOf: SkinOf): seq<Event> {
    if infos == [] then []
    else AllInfoEvents(infos[..|infos| - 1], ids, skins, skinOf) + InfoEvents(infos[|infos| - 1], ids, skins, skinOf)
  }

  function IdsOf(infos: seq<ClientInfo>): set<int> {
    set k | 0 <= k < |infos| :: infos[k].id
  }

  predicate UniqueIds(infos: seq<ClientInfo>) {
    forall j, k :: 0 <= j < k < |infos| ==> infos[j].id != infos[k].id
  }

  // ---------- what events do to the registry

  predicate Has(evs: seq<Event>, id: int) {
    exists k :: 0 <= k < |evs| && evs[k].id == id
  }

  lemma HasLast(evs: seq<Event>, id: int)
    requires evs != []
    ensures Has(evs, id) <==> Has(evs[..|evs| - 1], id) || evs[|evs| - 1].id == id
  {
    var front := evs[..|evs| - 1];
    if k :| 0 <= k < |evs| && evs[k].id == id {
      assert k < |front| ==> front[k].id == id;
    }
    if k :| 0 <= k < |front| && front[k].id == id {
      assert evs[k].id == id;
    }
  }

  /** Scores and teams add the ids they name and touch nobody's skin. */
  lemma {:induction false} ScoresAdd(r: Registry, evs: seq<Event>, local: int, id: int)
    requires forall k :: 0 <= k < |evs| ==> evs[k].ScoreChange? || evs[k].TeamSet?
    ensures var r' := ApplyAll(r, evs, local);
      (id in r' <==> id in r || Has(evs, id)) && (id in r ==> r'[id].skin == r[id].skin)
  {
    if evs != [] {
      HasLast(evs, id);
      ScoresAdd(r, evs[..|evs| - 1], local, id);
    }
  }

  lemma {:induction false} LeavesRemove(r: Registry, evs: seq<Event>, local: int, id: int)
    requires forall k :: 0 <= k < |evs| ==> evs[k].Leave?
    ensures var r' := ApplyAll(r, evs, local);
      (id in r' <==> id in r && !Has(evs, id)) && (id in r' ==> r'[id] == r[id])
  {
    if evs != [] {
      HasLast(evs, id);
      LeavesRemove(r, evs[..|evs| - 1], local, id);
    }
  }

  /** What the client infos do to one id: they add it if it is new, and bring its skin up to date. */
  lemma {:induction false} InfosUpdate(r: Registry, infos: seq<ClientInfo>, ids: set<int>, skins: map<int, seq<int>>,
                        skinOf: SkinOf, local: int, id: int)
    requires UniqueIds(infos)
    ensures var r' := ApplyAll(r, AllInfoEvents(infos, ids, skins, skinOf), local);
      && (id in r' <==> id in r || (id in IdsOf(infos) && id !in ids))
      && (id in r && id !in IdsOf(infos) ==> r'[id] == r[id])
      && (forall k :: 0 <= k < |infos| && infos[k].id == id && id in r' ==>
            r'[id].skin == if id !in ids || (id in skins && skins[id] != infos[k].skinInts)
                           then skinOf(infos[k].skinInts) else r[id].skin)
  {
    if infos != [] {
      var n := |infos| - 1;
      var front, last := infos[..n], infos[n];
      InfosUpdate(r, front, ids, skins, skinOf, local, id);
      ApplyJoin(r, AllInfoEvents(front, ids, skins, skinOf), InfoEvents(last, ids, skins, skinOf), local);
      LastInfo(infos, id);
      ApplyInfo(ApplyAll(r, AllInfoEvents(front, ids, skins, skinOf), local), last, ids, skins, skinOf, local);
    }
  }

  lemma LastInfo(infos: seq<ClientInfo>, id: int)
    requires infos != [] && UniqueIds(infos)
    ensures var n := |infos| - 1;
      && (id in IdsOf(infos) <==> id in IdsOf(infos[..n]) || infos[n].id == id)
      && (infos[n].id == id ==> id !in IdsOf(infos[..n]))
      && forall k :: 0 <= k < n ==> infos[..n][k] == infos[k] && infos[k].id in IdsOf(infos[..n])
  {
    var n := |infos| - 1;
    forall k | 0 <= k < n ensures infos[..n][k] == infos[k] && infos[k].id in IdsOf(infos[..n]) {
      assert infos[..n][k].id == infos[k].id;
    }
  }

  lemma ApplyInfo(r: Registry, i: ClientInfo, ids: set<int>, skins: map<int, seq<int>>, skinOf: SkinOf, local: int)
    ensures var r' := ApplyAll(r, InfoEvents(i, ids, skins, skinOf), local);
      && (forall id :: id != i.id ==> (id in r' <==> id in r) && (id in r ==> r'[id] == r[id]))
      && (i.id in r' <==> i.id in r || i.id !in ids)
      && (i.id in r' ==> (r'[i.id].skin ==
            if i.id !in ids || (i.id in skins && skins[i.id] != i.skinInts) then skinOf(i.skinInts) else r[i.id].skin))
  {
    var evs := InfoEvents(i, ids, skins, skinOf);
    assert evs != [] ==> evs[..|evs| - 1] == [];
  }

  /** An event for every score and every team that changed, and no others. */
  predicate CoversScores(prev: map<int, PlayerInfo>, cur: map<int, PlayerInfo>, evs: seq<Event>) {
    && (forall k :: 0 <= k < |evs| ==> IsScoreEvent(prev, cur, evs[k]))
    && (forall id :: id in cur && ScoreChanged(prev, cur, id) ==> ScoreChange(id, cur[id].score) in evs)
    && (forall id :: id in cur && TeamChanged(prev, cur, id) ==> TeamSet(id, cur[id].team) in evs)
  }

  lemma ScoresName(prev: map<int, PlayerInfo>, cur: map<int, PlayerInfo>, evs: seq<Event>, id: int)
    requires CoversScores(prev, cur, evs)
    ensures Has(evs, id) <==> id in Changed(prev, cur)
  {
    if k :| 0 <= k < |evs| && evs[k].id == id {
      assert IsScoreEvent(prev, cur, evs[k]);
    }
    if id in cur && ScoreChanged(prev, cur, id) {
      var k :| 0 <= k < |evs| && evs[k] == ScoreChange(id, cur[id].score);
      assert evs[k].id == id;
    }
    if id in cur && TeamChanged(prev, cur, id) {
      var k :| 0 <= k < |evs| && evs[k] == TeamSet(id, cur[id].team);
      assert evs[k].id == id;
    }
  }

  /** A leave for everybody whose client info is gone. */
  ghost predicate CoversLeaves(ids: set<int>, infos: seq<ClientInfo>, evs: seq<Event>) {
    && (forall k :: 0 <= k < |evs| ==> evs[k].Leave?)
    && (forall id :: Has(evs, id) <==> id in ids && id !in IdsOf(infos))
  }

  /** The registry after all events of a snapshot: scores and teams, client infos, and then the leaves. */
  function AfterSnapshot(r: Registry, scores: seq<Event>, infos: seq<Event>, leaves: seq<Event>, local: int): Registry {
    ApplyAll(ApplyAll(ApplyAll(r, scores, local), infos, local), leaves, local)
  }

  predicate HasSkin(r: Registry, i: ClientInfo, skinOf: SkinOf) {
    i.id in r && r[i.id].skin == skinOf(i.skinInts)
  }

  lemma SnapshotAt(r: Registry, prev: map<int, PlayerInfo>, s: Snapshot, scores: seq<Event>, leaves: seq<Event>,
                   ids: set<int>, skins: map<int, seq<int>>, skinOf: SkinOf, local: int, id: int)
    requires UniqueIds(s.infos) && CoversScores(prev, s.players, scores) && CoversLeaves(ids, s.infos, leaves)
    ensures var r' := AfterSnapshot(r, scores, AllInfoEvents(s.infos, ids, skins, skinOf), leaves, local);
      && (id in r' <==> id in KeysAfter(r.Keys, Changed(prev, s.players), ids, IdsOf(s.infos)))
      && ((id in ids ==> id in r && id in skins && r[id].skin == skinOf(skins[id])) ==>
          forall k :: 0 <= k < |s.infos| && s.infos[k].id == id ==> HasSkin(r', s.infos[k], skinOf))
  {
    hide ApplyAll, AllInfoEvents, Changed;
    ScoresName(prev, s.players, scores, id);
    assert forall k :: 0 <= k < |scores| ==> IsScoreEvent(prev, s.players, scores[k]);
    ScoresAdd(r, scores, local, id);
    var r1 := ApplyAll(r, scores, local);
    InfosUpdate(r1, s.infos, ids, skins, skinOf, local, id);
    LeavesRemove(ApplyAll(r1, AllInfoEvents(s.infos, ids, skins, skinOf), local), leaves, local, id);
    forall k | 0 <= k < |s.infos| ensures s.infos[k].id in IdsOf(s.infos) {
    }
  }

  // ---------- the keys over a run

  /** Changed scores and teams, new client infos, and then those that are gone. */
  function KeysAfter(keys: set<int>, changed: set<int>, prev: set<int>, cur: set<int>): set<int> {
    (keys + changed + (cur - prev)) - (prev - cur)
  }

  /** The snapshot before; before the first it is as if an empty one had come. */
  function Last(snaps: seq<Snapshot>): Snapshot {
    if snaps == [] then Snapshot([], map[]) else snaps[|snaps| - 1]
  }

  /** Who is registered after these snapshots. */
  function KeysRun(snaps: seq<Snapshot>): set<int> {
    if snaps == [] then {}
    else
      var front, s := snaps[..|snaps| - 1], snaps[|snaps| - 1];
      KeysAfter(KeysRun(front), Changed(Last(front).players, s.players), IdsOf(Last(front).infos), IdsOf(s.infos))
  }

  /** Nobody's score or team changes who has no client info, neither now nor in the snapshot before. */
  predicate Introduced(prev: Snapshot, s: Snapshot) {
    Changed(prev.players, s.players) <= IdsOf(prev.infos) + IdsOf(s.infos)
  }

  predicate AllIntroduced(snaps: seq<Snapshot>) {
    forall k :: 0 <= k < |snaps| ==> Introduced(Last(snaps[..k]), snaps[k])
  }

  predicate MatchesAt(snaps: seq<Snapshot>, k: nat)
    requires k <= |snaps|
  {
    KeysRun(snaps[..k]) == IdsOf(Last(snaps[..k]).infos)
  }

  lemma {:induction false} InfosAreRegistered(snaps: seq<Snapshot>)
    ensures IdsOf(Last(snaps).infos) <= KeysRun(snaps)
  {
    if snaps != [] {
      InfosAreRegistered(snaps[..|snaps| - 1]);
    }
  }

  lemma KeysStep(keys: set<int>, changed: set<int>, prev: set<int>, cur: set<int>)
    requires keys == prev
    ensures KeysAfter(keys, changed, prev, cur) == cur <==> changed <= prev + cur
  {
    if KeysAfter(keys, changed, prev, cur) == cur {
      forall id | id in changed ensures id in prev + cur {
        assert id in KeysAfter(keys, changed, prev, cur) || id in prev - cur;
      }
    }
  }

  /**
   The registry holds exactly the players of the latest snapshot's client infos, after every snapshot of a
   run, if and only if no score or team ever changed for somebody without one.
   */
  lemma {:induction false} RegistryIsRosterIff(snaps: seq<Snapshot>)
    ensures (forall k :: 0 <= k <= |snaps| ==> MatchesAt(snaps, k)) <==> AllIntroduced(snaps)
  {
    hide Changed, IdsOf, KeysAfter;
    if snaps == [] {
      assert IdsOf([]) == {} by {
        NoIds();
      }
    } else {
      var n := |snaps| - 1;
      var front, s := snaps[..n], snaps[n];
      RegistryIsRosterIff(front);
      OneMoreSnapshot(snaps);
      if MatchesAt(front, n) {
        KeysStep(KeysRun(front), Changed(Last(front).players, s.players), IdsOf(Last(front).infos), IdsOf(s.infos));
        assert MatchesAt(snaps, n + 1) <==> Introduced(Last(front), s);
      }
      assert (forall k :: 0 <= k <= n + 1 ==> MatchesAt(snaps, k))
        <==> (forall k :: 0 <= k <= n ==> MatchesAt(front, k)) && MatchesAt(snaps, n + 1);
    }
  }

  /** A score changes for somebody who never had a client info; the entry stays when nobody is left. */
  lemma StrangerExample()
    ensures var a, b := Snapshot([], map[5 := PlayerInfo(0, 0)]), Snapshot([], map[5 := PlayerInfo(1, 0)]);
      var snaps := [a, b, Snapshot([], map[])];
      KeysRun(snaps) == {5} && IdsOf(Last(snaps).infos) == {}
  {
    var a, b, c := Snapshot([], map[5 := PlayerInfo(0, 0)]), Snapshot([], map[5 := PlayerInfo(1, 0)]), Snapshot([], map[]);
    NoIds();
    assert [a, b, c][..2] == [a, b] && [a, b][..1] == [a] && [a][..0] == [];
    assert Changed(map[], a.players) == {} && Changed(a.players, b.players) == {5} && Changed(b.players, c.players) == {};
    assert KeysRun([a]) == {} && KeysRun([a, b]) == {5};
  }

  lemma OneMoreSnapshot(snaps: seq<Snapshot>)
    requires snaps != []
    ensures var n := |snaps| - 1; var front := snaps[..n];
      && (AllIntroduced(snaps) <==> AllIntroduced(front) && Introduced(Last(front), snaps[n]))
      && (forall k :: 0 <= k <= n ==> (MatchesAt(snaps, k) <==> MatchesAt(front, k)))
      && front[..n] == front && snaps[..n + 1] == snaps
  {
    hide Introduced, KeysRun, IdsOf;
    var n := |snaps| - 1;
    var front := snaps[..n];
    assert forall k :: 0 <= k <= n ==> snaps[..k] == front[..k];
    assert front[..n] == front && snaps[..n + 1] == snaps;
    if AllIntroduced(snaps) {
      assert Introduced(Last(snaps[..n]), snaps[n]);
      forall k | 0 <= k < n ensures Introduced(Last(front[..k]), front[k]) {
        assert Introduced(Last(snaps[..k]), snaps[k]);
      }
    }
    if AllIntroduced(front) && Introduced(Last(front), snaps[n]) {
      forall k | 0 <= k <= n ensures Introduced(Last(snaps[..k]), snaps[k]) {
        assert k < n ==> Introduced(Last(front[..k]), front[k]);
      }
    }
  }

  lemma NoIds()
    ensures IdsOf([]) == {}
  {
  }

  /** It is enough that in every snapshot everybody with a score has a client info. */
  lemma InfosForAllPlayers(snaps: seq<Snapshot>)
    requires forall k :: 0 <= k < |snaps| ==> snaps[k].players.Keys <= IdsOf(snaps[k].infos)
    ensures forall k :: 0 <= k <= |snaps| ==> KeysRun(snaps[..k]) == IdsOf(Last(snaps[..k]).infos)
  {
    hide IdsOf, KeysRun;
    forall k | 0 <= k < |snaps| ensures Introduced(Last(snaps[..k]), snaps[k]) {
      assert snaps[k].players.Keys <= IdsOf(snaps[k].infos);
    }
    RegistryIsRosterIff(snaps);
    forall k | 0 <= k <= |snaps| ensures KeysRun(snaps[..k]) == IdsOf(Last(snaps[..k]).infos) {
      assert MatchesAt(snaps, k);
    }
  }

  // ---------- scores and teams over a run

  /** The score and the team that the registry has for somebody. */
  function Standing(r: Registry, id: int): Option<PlayerInfo> {
    if id in r then Some(PlayerInfo(r[id].score, r[id].team)) else None
  }

  function OrZero(o: Option<PlayerInfo>): PlayerInfo {
    if o.Some? then o.value else PlayerInfo(0, 0)
  }

  function AfterScores(o: Option<PlayerInfo>, prev: map<int, PlayerInfo>, cur: map<int, PlayerInfo>,
                       id: int): Option<PlayerInfo> {
    if !ScoreChanged(prev, cur, id) && !TeamChanged(prev, cur, id) then o
    else Some(PlayerInfo(if ScoreChanged(prev, cur, id) then cur[id].score else OrZero(o).score,
                         if TeamChanged(prev, cur, id) then cur[id].team else OrZero(o).team))
  }

  function AfterInfos(o: Option<PlayerInfo>, id: int, prev: set<int>, cur: set<int>): Option<PlayerInfo> {
    if id in cur && id !in prev then Some(PlayerInfo(OrZero(o).score, 0)) else o
  }

  function StandingAfter(o: Option<PlayerInfo>, prev: Snapshot, s: Snapshot, id: int): Option<PlayerInfo> {
    var ids, ids' := IdsOf(prev.infos), IdsOf(s.infos);
    if id in ids && id !in ids' then None else AfterInfos(AfterScores(o, prev.players, s.players, id), id, ids, ids')
  }

  /** What the registry has for somebody after these snapshots. */
  function StandingRun(snaps: seq<Snapshot>, id: int): Option<PlayerInfo> {
    if snaps == [] then None
    else
      var front, s := snaps[..|snaps| - 1], snaps[|snaps| - 1];
      StandingAfter(StandingRun(front, id), Last(front), s, id)
  }

  /** As far as the score and team events have come, in whatever order. */
  lemma {:induction false} ScoresStand(r: Registry, evs: seq<Event>, prev: map<int, PlayerInfo>, cur: map<int,
                                       PlayerInfo>,
                                       local: int, id: int)
    requires forall k :: 0 <= k < |evs| ==> IsScoreEvent(prev, cur, evs[k])
    ensures var o, r' := Standing(r, id), ApplyAll(r, evs, local);
      var scored := id in cur && ScoreChange(id, cur[id].score) in evs;
      var teamed := id in cur && TeamSet(id, cur[id].team) in evs;
      Standing(r', id) ==
        if !scored && !teamed then o
        else Some(PlayerInfo(if scored then cur[id].score else OrZero(o).score, if teamed then cur[id].team else OrZero(o).team))
  {
    if evs != [] {
      var front, last := evs[..|evs| - 1], evs[|evs| - 1];
      ScoresStand(r, front, prev, cur, local, id);
      assert forall e :: e in evs <==> e in front || e == last;
      assert IsScoreEvent(prev, cur, last);
    }
  }

  lemma AllScoresStand(r: Registry, evs: seq<Event>, prev: map<int, PlayerInfo>, cur: map<int, PlayerInfo>,
                       local: int, id: int)
    requires CoversScores(prev, cur, evs)
    ensures Standing(ApplyAll(r, evs, local), id) == AfterScores(Standing(r, id), prev, cur, id)
  {
    hide ApplyAll, Standing;
    ScoresStand(r, evs, prev, cur, local, id);
    if id in cur && ScoreChange(id, cur[id].score) in evs {
      assert IsScoreEvent(prev, cur, ScoreChange(id, cur[id].score));
    }
    if id in cur && TeamSet(id, cur[id].team) in evs {
      assert IsScoreEvent(prev, cur, TeamSet(id, cur[id].team));
    }
  }

  lemma {:induction false} InfosStand(r: Registry, infos: seq<ClientInfo>, ids: set<int>, skins: map<int, seq<int>>,
                                      skinOf: SkinOf, local: int, id: int)
    requires UniqueIds(infos)
    ensures Standing(ApplyAll(r, AllInfoEvents(infos, ids, skins, skinOf), local), id)
      == AfterInfos(Standing(r, id), id, ids, IdsOf(infos))
  {
    hide IdsOf;
    if infos == [] {
      NoIds();
    } else {
      var n := |infos| - 1;
      var front, last := infos[..n], infos[n];
      InfosStand(r, front, ids, skins, skinOf, local, id);
      ApplyJoin(r, AllInfoEvents(front, ids, skins, skinOf), InfoEvents(last, ids, skins, skinOf), local);
      LastInfo(infos, id);
      InfoStands(ApplyAll(r, AllInfoEvents(front, ids, skins, skinOf), local), last, ids, skins, skinOf, local, id);
    }
  }

  lemma InfoStands(r: Registry, i: ClientInfo, ids: set<int>, skins: map<int, seq<int>>, skinOf: SkinOf,
                   local: int, id: int)
    ensures Standing(ApplyAll(r, InfoEvents(i, ids, skins, skinOf), local), id)
      == if i.id == id && id !in ids then Some(PlayerInfo(OrZero(Standing(r, id)).score, 0)) else Standing(r, id)
  {
    var evs := InfoEvents(i, ids, skins, skinOf);
    assert evs != [] ==> evs[..|evs| - 1] == [];
  }

  lemma SnapshotStands(r: Registry, prev: Snapshot, s: Snapshot, scores: seq<Event>, leaves: seq<Event>,
                       skins: map<int, seq<int>>, skinOf: SkinOf, local: int, id: int)
    requires UniqueIds(s.infos) && CoversScores(prev.players, s.players, scores)
    requires CoversLeaves(IdsOf(prev.infos), s.infos, leaves)
    ensures var infos := AllInfoEvents(s.infos, IdsOf(prev.infos), skins, skinOf);
      Standing(AfterSnapshot(r, scores, infos, leaves, local), id) == StandingAfter(Standing(r, id), prev, s, id)
  {
    hide ApplyAll, AllInfoEvents, CoversScores, UniqueIds, IdsOf, AfterScores;
    var ids := IdsOf(prev.infos);
    AllScoresStand(r, scores, prev.players, s.players, local, id);
    var r1 := ApplyAll(r, scores, local);
    InfosStand(r1, s.infos, ids, skins, skinOf, local, id);
    LeavesRemove(ApplyAll(r1, AllInfoEvents(s.infos, ids, skins, skinOf), local), leaves, local, id);
  }

  /** Whoever is registered and has a player info in the k-th snapshot stands in the registry with just that. */
  predicate ShowsAt(snaps: seq<Snapshot>, k: nat, id: int)
    requires k <= |snaps|
  {
    var players, o := Last(snaps[..k]).players, StandingRun(snaps[..k], id);
    o.Some? && id in players ==> o.value == players[id]
  }

  predicate Joins(prev: Snapshot, s: Snapshot, id: int) {
    id in IdsOf(s.infos) && id !in IdsOf(prev.infos)
  }

  /** What the snapshots last said of somebody since the registration; a newcomer has no points and no team. */
  function LastSaid(snaps: seq<Snapshot>, id: int): PlayerInfo {
    if snaps == [] || id !in KeysRun(snaps) then PlayerInfo(0, 0)
    else
      var front, s := snaps[..|snaps| - 1], snaps[|snaps| - 1];
      if id in s.players then s.players[id]
      else if Joins(Last(front), s, id) then PlayerInfo(LastSaid(front, id).score, 0)
      else LastSaid(front, id)
  }

  /**
   The player info of a snapshot is taken over: each number differs from that of the snapshot right before, or
   is what was last said; and the team of somebody who joins just now is 0.
   */
  predicate Taken(front: seq<Snapshot>, s: Snapshot, id: int) {
    id in s.players && id in KeysRun(front + [s]) ==>
      var before, p, said := Last(front), s.players[id], LastSaid(front, id);
      && (ScoreChanged(before.players, s.players, id) || p.score == said.score)
      && if Joins(before, s, id) then p.team == 0
         else TeamChanged(before.players, s.players, id) || p.team == said.team
  }

  predicate AllTaken(snaps: seq<Snapshot>, id: int) {
    snaps == [] || (AllTaken(snaps[..|snaps| - 1], id) && Taken(snaps[..|snaps| - 1], snaps[|snaps| - 1], id))
  }

  predicate AllShow(snaps: seq<Snapshot>, id: int) {
    forall k :: 0 <= k <= |snaps| ==> ShowsAt(snaps, k, id)
  }

  lemma {:induction false} StandingIsKey(snaps: seq<Snapshot>, id: int)
    ensures StandingRun(snaps, id).Some? <==> id in KeysRun(snaps)
  {
    hide IdsOf;
    if snaps != [] {
      StandingIsKey(snaps[..|snaps| - 1], id);
    }
  }

  lemma OneMoreShows(snaps: seq<Snapshot>, id: int)
    requires snaps != []
    ensures AllShow(snaps, id) <==> AllShow(snaps[..|snaps| - 1], id) && ShowsAt(snaps, |snaps|, id)
  {
    hide StandingRun;
    var n := |snaps| - 1;
    var front := snaps[..n];
    forall k | 0 <= k <= n ensures ShowsAt(snaps, k, id) <==> ShowsAt(front, k, id) {
      assert snaps[..k] == front[..k];
    }
  }

  /**
   The registry's score and team of a player are those of the latest player info, after every snapshot of a
   run, if and only if every player info is taken over. The first one is not unless it says 0 and 0.
   */
  lemma {:induction false} ScoreboardIff(snaps: seq<Snapshot>, id: int)
    ensures AllShow(snaps, id) <==> AllTaken(snaps, id)
    ensures AllTaken(snaps, id) && id in KeysRun(snaps) ==> StandingRun(snaps, id) == Some(LastSaid(snaps, id))
  {
    hide IdsOf, Changed, KeysRun, AllShow;
    StandingIsKey(snaps, id);
    if snaps == [] {
      NothingToShow(id);
    } else {
      var n := |snaps| - 1;
      ScoreboardIff(snaps[..n], id);
      StandingIsKey(snaps[..n], id);
      OneMoreShows(snaps, id);
      assert snaps[..n] + [snaps[n]] == snaps && snaps[..|snaps|] == snaps;
    }
  }

  lemma NothingToShow(id: int)
    ensures AllShow([], id) && id !in KeysRun([])
  {
  }

  /** Somebody who is there from the first snapshot on with seven points in team 1 is registered with 0 and 0. */
  lemma FirstScoreExample(i: ClientInfo)
    ensures var snaps := [Snapshot([i], map[i.id := PlayerInfo(7, 1)])];
      StandingRun(snaps, i.id) == Some(PlayerInfo(0, 0)) && !AllShow(snaps, i.id)
  {
    var snaps := [Snapshot([i], map[i.id := PlayerInfo(7, 1)])];
    NoIds();
    assert [i][0].id in IdsOf([i]);
    assert snaps[..1] == snaps && snaps[..0] == [];
    assert !ShowsAt(snaps, 1, i.id);
  }

  /**
   A team that changes in the snapshot in which the client info arrives: the team event comes first, and the
   join puts the team back to 0.
   */
  lemma JoinLosesTeamExample(i: ClientInfo, skinOf: SkinOf, local: int)
    ensures var snaps := [Snapshot([], map[i.id := PlayerInfo(0, 0)]), Snapshot([i], map[i.id := PlayerInfo(0, 1)])];
      && AllIntroduced(snaps) && StandingRun(snaps, i.id) == Some(PlayerInfo(0, 0))
      && CoversScores(snaps[0].players, snaps[1].players, [TeamSet(i.id, 1)])
    ensures var r := ApplyAll(map[], [TeamSet(i.id, 1)], local);
      r[i.id].team == 1 && ApplyAll(r, AllInfoEvents([i], {}, map[], skinOf), local)[i.id].team == 0
  {
    var a, b := Snapshot([], map[i.id := PlayerInfo(0, 0)]), Snapshot([i], map[i.id := PlayerInfo(0, 1)]);
    NoIds();
    assert [i][0].id in IdsOf([i]);
    assert [a, b][..1] == [a] && [a][..0] == [] && [a, b][..0] == [];
    assert Changed(map[], a.players) == {} && Changed(a.players, b.players) <= {i.id};
    assert StandingRun([a], i.id) == None;
    assert [i][..0] == [] && [TeamSet(i.id, 1)][..0] == [];
    var join := Join(i.id, i.name, i.clan, i.country, skinOf(i.skinInts), 0);
    assert AllInfoEvents([i], {}, map[], skinOf) == [] + [join] == [join];
    assert [join][..0] == [];
  }

  // ---------- identities over a run

  /** Who a registry entry says somebody is. */
  datatype Face = Face(name: string, clan: string, country: int, local: bool)

  function FaceOf(r: Registry, id: int): Option<Face> {
    if id in r then Some(Face(r[id].name, r[id].clan, r[id].country, r[id].local)) else None
  }

  function InfoOf(infos: seq<ClientInfo>, id: int): (o: Option<ClientInfo>)
    ensures o.Some? ==> o.value in infos && o.value.id == id
    ensures o.None? ==> forall k :: 0 <= k < |infos| ==> infos[k].id != id
  {
    if infos == [] then None
    else
      var last := infos[|infos| - 1];
      if last.id == id then Some(last) else InfoOf(infos[..|infos| - 1], id)
  }

  /** A score or a team of somebody unknown makes an entry without an identity. */
  function FaceAfterScores(o: Option<Face>, changed: bool, id: int, local: int): Option<Face> {
    if changed && o.None? then Some(Face("", "", 0, id == local)) else o
  }

  /** A client info that was not there in the snapshot before. */
  function NewInfo(prev: Snapshot, s: Snapshot, id: int): Option<ClientInfo> {
    if id in IdsOf(prev.infos) then None else InfoOf(s.infos, id)
  }

  function FaceAfter(o: Option<Face>, prev: Snapshot, s: Snapshot, id: int, local: int): Option<Face> {
    var i := NewInfo(prev, s, id);
    if id in IdsOf(prev.infos) && id !in IdsOf(s.infos) then None
    else if i.Some? then Some(Face(i.value.name, i.value.clan, i.value.country, id == local))
    else FaceAfterScores(o, id in Changed(prev.players, s.players), id, local)
  }

  /** The entry for somebody after these snapshots, in which the client's own id was as the other list says. */
  function FaceRun(snaps: seq<Snapshot>, locals: seq<int>, id: int): Option<Face>
    requires |snaps| == |locals|
  {
    if snaps == [] then None
    else
      var n := |snaps| - 1;
      FaceAfter(FaceRun(snaps[..n], locals[..n], id), Last(snaps[..n]), snaps[n], id, locals[n])
  }

  lemma {:induction false} ScoresFace(r: Registry, evs: seq<Event>, local: int, id: int)
    requires forall k :: 0 <= k < |evs| ==> evs[k].ScoreChange? || evs[k].TeamSet?
    ensures FaceOf(ApplyAll(r, evs, local), id) == FaceAfterScores(FaceOf(r, id), Has(evs, id), id, local)
  {
    if evs != [] {
      HasLast(evs, id);
      ScoresFace(r, evs[..|evs| - 1], local, id);
    }
  }

  lemma InfoFace(r: Registry, i: ClientInfo, ids: set<int>, skins: map<int, seq<int>>, skinOf: SkinOf, local: int, id: int)
    ensures FaceOf(ApplyAll(r, InfoEvents(i, ids, skins, skinOf), local), id)
      == if i.id == id && id !in ids then Some(Face(i.name, i.clan, i.country, id == local)) else FaceOf(r, id)
  {
    var evs := InfoEvents(i, ids, skins, skinOf);
    assert evs != [] ==> evs[..|evs| - 1] == [];
  }

  lemma {:induction false} InfosFace(r: Registry, infos: seq<ClientInfo>, ids: set<int>, skins: map<int, seq<int>>,
                                     skinOf: SkinOf, local: int, id: int)
    ensures var i := InfoOf(infos, id);
      FaceOf(ApplyAll(r, AllInfoEvents(infos, ids, skins, skinOf), local), id)
      == if i.Some? && id !in ids then Some(Face(i.value.name, i.value.clan, i.value.country, id == local)) else FaceOf(r, id)
  {
    hide FaceOf;
    if infos != [] {
      var n := |infos| - 1;
      InfosFace(r, infos[..n], ids, skins, skinOf, local, id);
      ApplyJoin(r, AllInfoEvents(infos[..n], ids, skins, skinOf), InfoEvents(infos[n], ids, skins, skinOf), local);
      InfoFace(ApplyAll(r, AllInfoEvents(infos[..n], ids, skins, skinOf), local), infos[n], ids, skins, skinOf, local, id);
    }
  }

  lemma SnapshotFace(r: Registry, prev: Snapshot, s: Snapshot, scores: seq<Event>, leaves: seq<Event>,
                     skins: map<int, seq<int>>, skinOf: SkinOf, local: int, id: int)
    requires CoversScores(prev.players, s.players, scores) && CoversLeaves(IdsOf(prev.infos), s.infos, leaves)
    ensures var infos := AllInfoEvents(s.infos, IdsOf(prev.infos), skins, skinOf);
      FaceOf(AfterSnapshot(r, scores, infos, leaves, local), id) == FaceAfter(FaceOf(r, id), prev, s, id, local)
  {
    hide ApplyAll, AllInfoEvents, Changed, IdsOf, InfoOf;
    var ids := IdsOf(prev.infos);
    assert forall k :: 0 <= k < |scores| ==> IsScoreEvent(prev.players, s.players, scores[k]);
    ScoresFace(r, scores, local, id);
    ScoresName(prev.players, s.players, scores, id);
    var r1 := ApplyAll(r, scores, local);
    InfosFace(r1, s.infos, ids, skins, skinOf, local, id);
    LeavesRemove(ApplyAll(r1, AllInfoEvents(s.infos, ids, skins, skinOf), local), leaves, local, id);
  }

  /** The client info with which somebody who is in the latest client infos came into them. */
  function JoinedAs(snaps: seq<Snapshot>, id: int): Option<ClientInfo> {
    if snaps == [] then None
    else
      var front, s := snaps[..|snaps| - 1], snaps[|snaps| - 1];
      if id !in IdsOf(s.infos) then None
      else if id in IdsOf(Last(front).infos) then JoinedAs(front, id)
      else InfoOf(s.infos, id)
  }

  lemma InfoIsThere(infos: seq<ClientInfo>, id: int)
    ensures InfoOf(infos, id).Some? <==> id in IdsOf(infos)
  {
    var o := InfoOf(infos, id);
    if o.Some? {
      var k :| 0 <= k < |infos| && infos[k] == o.value;
      assert infos[k].id in IdsOf(infos);
    }
  }

  /** Everybody in the latest client infos is registered as who they joined as, whatever happened since. */
  lemma {:induction false} RegisteredAsJoined(snaps: seq<Snapshot>, locals: seq<int>, id: int)
    requires |snaps| == |locals| && id in IdsOf(Last(snaps).infos)
    ensures var i, f := JoinedAs(snaps, id), FaceRun(snaps, locals, id);
      && i.Some? && f.Some? && i.value.id == id
      && f.value.name == i.value.name && f.value.clan == i.value.clan && f.value.country == i.value.country
  {
    hide IdsOf, InfoOf, Changed;
    if snaps == [] {
      NoIds();
    } else {
      var n := |snaps| - 1;
      if id in IdsOf(Last(snaps[..n]).infos) {
        RegisteredAsJoined(snaps[..n], locals[..n], id);
      } else {
        InfoIsThere(snaps[n].infos, id);
      }
    }
  }

  /** The own id does not change to or from somebody who stays registered without joining again. */
  predicate OwnIdKept(snaps: seq<Snapshot>, locals: seq<int>, k: nat, id: int)
    requires k < |snaps| == |locals|
  {
    var stays := k > 0 && FaceRun(snaps[..k], locals[..k], id).Some? && FaceRun(snaps[..k + 1], locals[..k + 1], id).Some?
                 && !Joins(snaps[k - 1], snaps[k], id);
    stays ==> (id == locals[k - 1] <==> id == locals[k])
  }

  predicate FlagRight(snaps: seq<Snapshot>, locals: seq<int>, k: nat, id: int)
    requires k < |snaps| == |locals|
  {
    var f := FaceRun(snaps[..k + 1], locals[..k + 1], id);
    f.Some? ==> (f.value.local <==> id == locals[k])
  }

  lemma FlagStep(snaps: seq<Snapshot>, locals: seq<int>, k: nat, id: int)
    requires k < |snaps| == |locals| && (k > 0 ==> FlagRight(snaps, locals, k - 1, id))
    ensures FlagRight(snaps, locals, k, id) <==> OwnIdKept(snaps, locals, k, id)
  {
    hide IdsOf, Changed, InfoOf;
    assert snaps[..k + 1][..k] == snaps[..k] && locals[..k + 1][..k] == locals[..k];
    assert k > 0 ==> Last(snaps[..k]) == snaps[k - 1];
    assert k == 0 ==> FaceRun(snaps[..k], locals[..k], id) == None;
    InfoIsThere(snaps[k].infos, id);
    NoIds();
  }

  /** The entry of the client's own id, and no other, is marked as local, exactly when the own id is kept so. */
  lemma {:induction false} OwnFlagIff(snaps: seq<Snapshot>, locals: seq<int>, n: nat, id: int)
    requires n <= |snaps| == |locals|
    ensures (forall k :: 0 <= k < n ==> FlagRight(snaps, locals, k, id))
      <==> forall k :: 0 <= k < n ==> OwnIdKept(snaps, locals, k, id)
  {
    hide FlagRight, OwnIdKept;
    if n > 0 {
      OwnFlagIff(snaps, locals, n - 1, id);
      if forall k :: 0 <= k < n - 1 ==> FlagRight(snaps, locals, k, id) {
        FlagStep(snaps, locals, n - 1, id);
      }
    }
  }

  /** Somebody who stays while the own id changes to another one is still marked as the local player. */
  lemma StaleFlagExample(i: ClientInfo)
    ensures var snaps, locals := [Snapshot([i], map[]), Snapshot([i], map[])], [i.id, i.id + 1];
      FaceRun(snaps, locals, i.id) == Some(Face(i.name, i.clan, i.country, true))
  {
    var s := Snapshot([i], map[]);
    var snaps, locals := [s, s], [i.id, i.id + 1];
    NoIds();
    assert [i][0].id in IdsOf([i]);
    InfoIsThere([i], i.id);
    assert snaps[..1] == [s] && [s][..0] == [] && locals[..1] == [i.id] && [i.id][..0] == [];
    assert Changed(map[], map[]) == {};
    assert FaceRun([s], [i.id], i.id) == Some(Face(i.name, i.clan, i.country, true));
  }

  // ---------- the client's side

  class Client {
    var players: Registry
    var prevPlayers: map<int, PlayerInfo>   // the scores and teams of the snapshot before
    var prevClientIds: set<int>
    var prevSkins: map<int, seq<int>>
    var rosterInit: bool
    var localCid: int
    const skinOf: SkinOf
    ghost var log: seq<Snapshot>            // the snapshots handled so far
    ghost var locals: seq<int>              // and the client's own id in each of them

    constructor (skinOf: SkinOf)
      ensures Valid() && log == [] && locals == [] && this.skinOf == skinOf
    {
      players, prevPlayers, prevClientIds, prevSkins, rosterInit, localCid := map[], map[], {}, map[], false, 0;
      this.skinOf, log, locals := skinOf, [], [];
    }

    /** The client info of the latest snapshot is registered, with the skin it has now. */
    ghost predicate UpToDate(i: ClientInfo)
      reads this
    {
      && i.id in prevClientIds && i.id in prevSkins && prevSkins[i.id] == i.skinInts
      && i.id in players && players[i.id].skin == skinOf(i.skinInts)
    }

    /**
     The registry holds who the run says, with the identity, the score and the team it says, and everybody in
     the latest snapshot's client infos with the present skin.
     */
    ghost predicate Valid()
      reads this
    {
      && players.Keys == KeysRun(log) && StandsAsRun() && |locals| == |log| && FacesAsRun()
      && prevPlayers == Last(log).players
      && prevClientIds == IdsOf(Last(log).infos) && prevSkins.Keys == prevClientIds
      && (!rosterInit ==> log == [])
      && forall k :: 0 <= k < |Last(log).infos| ==> UpToDate(Last(log).infos[k])
    }

    ghost predicate StandsAsRun()
      reads this
    {
      forall id :: Standing(players, id) == StandingRun(log, id)
    }

    ghost predicate FacesAsRun()
      requires |locals| == |log|
      reads this
    {
      forall id :: FaceOf(players, id) == FaceRun(log, locals, id)
    }

    /** deriveGame's score and team events, in whatever order the players are walked. */
    method DeriveScores(cur: map<int, PlayerInfo>) returns (evs: seq<Event>)
      ensures CoversScores(prevPlayers, cur, evs)
    {
      evs := [];
      var todo: set<int> := cur.Keys;
      while todo != {}
        invariant todo <= cur.Keys
        invariant forall k :: 0 <= k < |evs| ==> IsScoreEvent(prevPlayers, cur, evs[k])
        invariant forall id :: id in cur && id !in todo && ScoreChanged(prevPlayers, cur, id) ==>
          ScoreChange(id, cur[id].score) in evs
        invariant forall id :: id in cur && id !in todo && TeamChanged(prevPlayers, cur, id) ==>
          TeamSet(id, cur[id].team) in evs
      {
        SomeMember(todo);
        var id :| id in todo;
        if id in prevPlayers && prevPlayers[id].score != cur[id].score {
          evs := evs + [ScoreChange(id, cur[id].score)];
        }
        if id in prevPlayers && prevPlayers[id].team != cur[id].team {
          evs := evs + [TeamSet(id, cur[id].team)];
        }
        todo := todo - {id};
      }
    }

    /** deriveRoster06: joins and skin changes in the order of the items, then who is gone. */
    method DeriveRoster(infos: seq<ClientInfo>) returns (evs: seq<Event>, leaves: seq<Event>)
      requires !rosterInit ==> prevClientIds == {}
      modifies `prevClientIds, `prevSkins, `rosterInit
      ensures evs == AllInfoEvents(infos, old(prevClientIds), old(prevSkins), skinOf)
      ensures CoversLeaves(old(prevClientIds), infos, leaves)
      ensures prevClientIds == IdsOf(infos) && prevSkins.Keys == IdsOf(infos) && rosterInit
      ensures UniqueIds(infos) ==> forall k :: 0 <= k < |infos| ==> prevSkins[infos[k].id] == infos[k].skinInts
    {
      var curIds, curSkins;
      evs, curIds, curSkins := WalkInfos(infos, prevClientIds, prevSkins, skinOf);
      leaves := [];
      if rosterInit {
        leaves := LeavesOf(prevClientIds, curIds);
      }
      prevClientIds, prevSkins, rosterInit := curIds, curSkins, true;
    }

    method ApplyEvents(evs: seq<Event>)
      modifies `players
      ensures players == ApplyAll(old(players), evs, localCid)
    {
      for k := 0 to |evs|
        invariant players == ApplyAll(old(players), evs[..k], localCid)
      {
        assert evs[..k + 1][..k] == evs[..k];
        players := ApplyEvent(players, evs[k], localCid);
      }
      assert evs[..|evs|] == evs;
    }

    /** A snapshot, and the own id in it: its events are derived, then applied one by one. */
    method HandleSnapshot(s: Snapshot, local: int)
      requires Valid() && UniqueIds(s.infos)
      modifies this
      ensures Valid() && log == old(log) + [s] && locals == old(locals) + [local] && localCid == local
    {
      hide ApplyAll, KeysAfter, AllInfoEvents, IdsOf, Changed, UniqueIds, CoversScores, CoversLeaves;
      hide Standing, StandingRun, FaceOf, FaceRun, StandsAsRun, FacesAsRun, KeysRun;
      assert StandsAsRun() && FacesAsRun();
      HasStandings();
      localCid := local;
      ghost var before, was, ids, skins := Last(log), players, prevClientIds, prevSkins;
      NoIds();
      var scores := DeriveScores(s.players);
      var infos, leaves := DeriveRoster(s.infos);
      prevPlayers := s.players;
      ApplyEvents(scores);
      ApplyEvents(infos);
      ApplyEvents(leaves);
      log, locals := log + [s], locals + [local];
      assert log[..|log| - 1] == old(log) && locals[..|log| - 1] == old(locals);
      RegistryAfter(was, before, s, scores, leaves, ids, skins, skinOf, localCid);
      SnapshotRuns(was, old(log), old(locals), s, local, scores, leaves, skins, skinOf);
      KeysRunNext(old(log), s);
      StandAndFace();
    }

    lemma HasStandings()
      requires |locals| == |log| && StandsAsRun() && FacesAsRun()
      ensures forall id :: Standing(players, id) == StandingRun(log, id)
      ensures forall id :: FaceOf(players, id) == FaceRun(log, locals, id)
    {
      hide Standing, FaceOf, FaceRun, StandingRun;
    }

    lemma StandAndFace()
      requires |locals| == |log|
      requires forall id :: Standing(players, id) == StandingRun(log, id)
      requires forall id :: FaceOf(players, id) == FaceRun(log, locals, id)
      ensures StandsAsRun() && FacesAsRun()
    {
      hide Standing, FaceOf, FaceRun, StandingRun;
    }

    /** Registered with the name, clan and country of the client info that they joined with. */
    ghost predicate RegisteredAs(id: int)
      reads this
    {
      var i := JoinedAs(log, id);
      && i.Some? && id in players
      && players[id].name == i.value.name && players[id].clan == i.value.clan && players[id].country == i.value.country
    }

    /** At any time between two snapshots everybody in the latest client infos is. */
    lemma RegisteredAsTheyJoined(id: int)
      requires Valid() && id in IdsOf(Last(log).infos)
      ensures RegisteredAs(id)
    {
      hide JoinedAs, FaceRun, IdsOf;
      RegisteredAsJoined(log, locals, id);
      assert FaceOf(players, id) == FaceRun(log, locals, id);
    }
  }

  lemma KeysRunNext(log: seq<Snapshot>, s: Snapshot)
    ensures KeysRun(log + [s])
      == KeysAfter(KeysRun(log), Changed(Last(log).players, s.players), IdsOf(Last(log).infos), IdsOf(s.infos))
  {
    hide KeysAfter, Changed, IdsOf;
    assert (log + [s])[..|log|] == log;
  }

  /** The entries after a snapshot's events are those of the run that is one snapshot longer. */
  lemma SnapshotRuns(r: Registry, log: seq<Snapshot>, locals: seq<int>, s: Snapshot, local: int, scores: seq<Event>,
                     leaves: seq<Event>, skins: map<int, seq<int>>, skinOf: SkinOf)
    requires UniqueIds(s.infos) && CoversScores(Last(log).players, s.players, scores)
    requires CoversLeaves(IdsOf(Last(log).infos), s.infos, leaves) && |locals| == |log|
    requires forall id :: Standing(r, id) == StandingRun(log, id)
    requires forall id :: FaceOf(r, id) == FaceRun(log, locals, id)
    ensures var r' := AfterSnapshot(r, scores, AllInfoEvents(s.infos, IdsOf(Last(log).infos), skins, skinOf), leaves, local);
      && (forall id :: Standing(r', id) == StandingRun(log + [s], id))
      && forall id :: FaceOf(r', id) == FaceRun(log + [s], locals + [local], id)
  {
    hide AfterSnapshot, AllInfoEvents, IdsOf, UniqueIds, CoversScores, CoversLeaves, Standing, StandingAfter, FaceOf, FaceAfter;
    assert (log + [s])[..|log|] == log && (locals + [local])[..|log|] == locals;
    var r' := AfterSnapshot(r, scores, AllInfoEvents(s.infos, IdsOf(Last(log).infos), skins, skinOf), leaves, local);
    forall id ensures Standing(r', id) == StandingRun(log + [s], id) {
      SnapshotStands(r, Last(log), s, scores, leaves, skins, skinOf, local, id);
    }
    forall id ensures FaceOf(r', id) == FaceRun(log + [s], locals + [local], id) {
      SnapshotFace(r, Last(log), s, scores, leaves, skins, skinOf, local, id);
    }
  }

  lemma RegistryAfter(r: Registry, before: Snapshot, s: Snapshot, scores: seq<Event>, leaves: seq<Event>,
                      ids: set<int>, skins: map<int, seq<int>>, skinOf: SkinOf, local: int)
    requires UniqueIds(s.infos) && CoversScores(before.players, s.players, scores) && CoversLeaves(ids, s.infos, leaves)
    requires ids == IdsOf(before.infos)
    requires forall k :: 0 <= k < |before.infos| ==> SkinKnown(r, before.infos[k], skins, skinOf)
    ensures var r' := AfterSnapshot(r, scores, AllInfoEvents(s.infos, ids, skins, skinOf), leaves, local);
      && r'.Keys == KeysAfter(r.Keys, Changed(before.players, s.players), ids, IdsOf(s.infos))
      && forall k :: 0 <= k < |s.infos| ==> s.infos[k].id in IdsOf(s.infos) && HasSkin(r', s.infos[k], skinOf)
  {
    hide AllInfoEvents, Changed, KeysAfter, AfterSnapshot, CoversScores, CoversLeaves, UniqueIds;
    var r' := AfterSnapshot(r, scores, AllInfoEvents(s.infos, ids, skins, skinOf), leaves, local);
    forall id ensures id in r' <==> id in KeysAfter(r.Keys, Changed(before.players, s.players), ids, IdsOf(s.infos)) {
      SnapshotAt(r, before.players, s, scores, leaves, ids, skins, skinOf, local, id);
    }
    forall k | 0 <= k < |s.infos| ensures s.infos[k].id in IdsOf(s.infos) && HasSkin(r', s.infos[k], skinOf) {
      var id := s.infos[k].id;
      if id in ids {
        var j :| 0 <= j < |before.infos| && before.infos[j].id == id;
        assert SkinKnown(r, before.infos[j], skins, skinOf);
      }
      SnapshotAt(r, before.players, s, scores, leaves, ids, skins, skinOf, local, id);
    }
  }

  /** The client info's player is registered with the skin that is remembered for it. */
  predicate SkinKnown(r: Registry, i: ClientInfo, skins: map<int, seq<int>>, skinOf: SkinOf) {
    i.id in r && i.id in skins && r[i.id].skin == skinOf(skins[i.id])
  }

  method WalkInfos(infos: seq<ClientInfo>, prevIds: set<int>, prevSkins: map<int, seq<int>>, skinOf: SkinOf)
    returns (evs: seq<Event>, curIds: set<int>, curSkins: map<int, seq<int>>)
    ensures evs == AllInfoEvents(infos, prevIds, prevSkins, skinOf)
    ensures curIds == IdsOf(infos) && curSkins.Keys == IdsOf(infos)
    ensures UniqueIds(infos) ==> forall k :: 0 <= k < |infos| ==> curSkins[infos[k].id] == infos[k].skinInts
  {
    hide InfoEvents, IdsOf;
    evs, curIds, curSkins := [], {}, map[];
    NoIds();
    for k := 0 to |infos|
      invariant evs == AllInfoEvents(infos[..k], prevIds, prevSkins, skinOf)
      invariant curIds == IdsOf(infos[..k]) && curSkins.Keys == curIds
      invariant forall j :: 0 <= j < k ==> infos[j].id in curIds
      invariant UniqueIds(infos) ==> forall j :: 0 <= j < k ==> curSkins[infos[j].id] == infos[j].skinInts
    {
      var i := infos[k];
      assert infos[..k + 1][..k] == infos[..k];
      IdsOfNext(infos, k);
      curIds, curSkins := curIds + {i.id}, curSkins[i.id := i.skinInts];
      evs := evs + InfoEvents(i, prevIds, prevSkins, skinOf);
    }
    assert infos[..|infos|] == infos;
  }

  lemma IdsOfNext(infos: seq<ClientInfo>, k: nat)
    requires k < |infos|
    ensures IdsOf(infos[..k + 1]) == IdsOf(infos[..k]) + {infos[k].id}
  {
    var front, more := infos[..k], infos[..k + 1];
    assert forall j :: 0 <= j < k ==> more[j] == front[j];
    forall id | id in IdsOf(front) ensures id in IdsOf(more) {
      var j :| 0 <= j < k && front[j].id == id;
      assert more[j].id == id;
    }
    assert more[k].id in IdsOf(more);
  }

  method LeavesOf(prev: set<int>, cur: set<int>) returns (leaves: seq<Event>)
    ensures forall k :: 0 <= k < |leaves| ==> leaves[k].Leave?
    ensures forall id :: Has(leaves, id) <==> id in prev && id !in cur
  {
    leaves := [];
    var todo: set<int> := prev;
    while todo != {}
      invariant todo <= prev
      invariant forall k :: 0 <= k < |leaves| ==> leaves[k].Leave?
      invariant forall id :: Has(leaves, id) <==> id in prev && id !in cur && id !in todo
    {
      SomeMember(todo);
      var id :| id in todo;
      if id !in cur {
        forall i ensures Has(leaves + [Leave(id)], i) <==> Has(leaves, i) || i == id {
          HasLast(leaves + [Leave(id)], i);
        }
        leaves := leaves + [Leave(id)];
      }
      todo := todo - {id};
    }
  }
}
