/**
 Replay of a record list tick by tick. The file marks ticks only partly: skips are explicit, but
 a player record whose client id does not increase starts the next tick by itself.
 */
module Ticks {
  import opened Teehistorian

  datatype Pos = Pos(x: int, y: int)

  datatype Frame = Frame(tick: int, players: map<int, Pos>, inputs: map<int, Input>)

  // ---------- what the records say about positions and inputs, whatever the ticks

  function Add(a: Input, b: Input): (sum: Input)
    ensures forall i :: 0 <= i < 10 ==> sum[i] == a[i] + b[i]
  {
    [a[0] + b[0], a[1] + b[1], a[2] + b[2], a[3] + b[3], a[4] + b[4],
     a[5] + b[5], a[6] + b[6], a[7] + b[7], a[8] + b[8], a[9] + b[9]]
  }

  const ZERO_INPUT: Input := [0, 0, 0, 0, 0, 0, 0, 0, 0, 0]

  function MovePlayers(before: map<int, Pos>, rec: Record): map<int, Pos> {
    match rec
    case PlayerNew(cid, x, y) => before[cid := Pos(x, y)]
    case PlayerDiff(cid, dx, dy) =>
      var p := if cid in before then before[cid] else Pos(0, 0);
      before[cid := Pos(p.x + dx, p.y + dy)]
    case PlayerOld(cid) => before - {cid}
    case _ => before
  }

  function Players(recs: seq<Record>): map<int, Pos> {
    if recs == [] then map[] else MovePlayers(Players(recs[..|recs| - 1]), recs[|recs| - 1])
  }

  function ChangeInputs(before: map<int, Input>, rec: Record): map<int, Input> {
    match rec
    case InputNew(cid, input) => before[cid := input]
    case InputDiff(cid, diff) => before[cid := Add(if cid in before then before[cid] else ZERO_INPUT, diff)]
    case _ => before
  }

  function Inputs(recs: seq<Record>): map<int, Input> {
    if recs == [] then map[] else ChangeInputs(Inputs(recs[..|recs| - 1]), recs[|recs| - 1])
  }

  /** No record of the list places or removes the player. */
  predicate OnlyDiffs(recs: seq<Record>, cid: int) {
    forall i :: 0 <= i < |recs| ==>
      !(recs[i].PlayerNew? && recs[i].cid == cid) && !(recs[i].PlayerOld? && recs[i].cid == cid)
  }

  function SumOfDiffs(recs: seq<Record>, cid: int): Pos {
    if recs == [] then Pos(0, 0)
    else
      var s := SumOfDiffs(recs[..|recs| - 1], cid);
      var last := recs[|recs| - 1];
      if last.PlayerDiff? && last.cid == cid then Pos(s.x + last.dx, s.y + last.dy) else s
  }

  /** After a player's last absolute record, its position is that record plus the sum of its later diffs. */
  lemma {:induction false} PositionIsSum(before: seq<Record>, abs: Record, after: seq<Record>)
    requires abs.PlayerNew? && OnlyDiffs(after, abs.cid)
    ensures var s := SumOfDiffs(after, abs.cid);
      var players := Players(before + [abs] + after);
      abs.cid in players && players[abs.cid] == Pos(abs.x + s.x, abs.y + s.y)
    decreases |after|
  {
    var all := before + [abs] + after;
    if after == [] {
      assert all[..|all| - 1] == before && all[|all| - 1] == abs;
    } else {
      PositionIsSum(before, abs, after[..|after| - 1]);
      assert all[..|all| - 1] == before + [abs] + after[..|after| - 1];
      assert all[|all| - 1] == after[|after| - 1];
    }
  }

  predicate HasDiff(recs: seq<Record>, cid: int) {
    exists i :: 0 <= i < |recs| && recs[i].PlayerDiff? && recs[i].cid == cid
  }

  /** A player that was never placed, or was removed, counts its differences from zero. */
  lemma {:induction false} PositionFromZero(before: seq<Record>, after: seq<Record>, cid: int)
    requires cid !in Players(before) && OnlyDiffs(after, cid)
    ensures var players := Players(before + after);
      && (cid in players <==> HasDiff(after, cid))
      && (cid in players ==> players[cid] == SumOfDiffs(after, cid))
    ensures !HasDiff(after, cid) ==> SumOfDiffs(after, cid) == Pos(0, 0)
    decreases |after|
  {
    var all := before + after;
    if after == [] {
      assert all == before;
    } else {
      var front, last := after[..|after| - 1], after[|after| - 1];
      PositionFromZero(before, front, cid);
      assert all[..|all| - 1] == before + front && all[|all| - 1] == last;
      assert HasDiff(after, cid) <==> HasDiff(front, cid) || (last.PlayerDiff? && last.cid == cid) by {
        if i :| 0 <= i < |front| && front[i].PlayerDiff? && front[i].cid == cid {
          assert after[i].cid == cid;
        }
      }
    }
  }

  /** A removed player stays absent until a record names it again. */
  lemma {:induction false} RemovedIsAbsent(before: seq<Record>, old_: Record, after: seq<Record>)
    requires old_.PlayerOld? && OnlyDiffs(after, old_.cid)
    requires forall i :: 0 <= i < |after| ==> !(after[i].PlayerDiff? && after[i].cid == old_.cid)
    ensures old_.cid !in Players(before + [old_] + after)
    decreases |after|
  {
    var all := before + [old_] + after;
    if after == [] {
      assert all[..|all| - 1] == before && all[|all| - 1] == old_;
    } else {
      RemovedIsAbsent(before, old_, after[..|after| - 1]);
      assert all[..|all| - 1] == before + [old_] + after[..|after| - 1];
      assert all[|all| - 1] == after[|after| - 1];
    }
  }

  predicate NoNewInput(recs: seq<Record>, cid: int) {
    forall i :: 0 <= i < |recs| ==> !(recs[i].InputNew? && recs[i].cid == cid)
  }

  function SumOfInputs(recs: seq<Record>, cid: int): Input {
    if recs == [] then ZERO_INPUT
    else
      var s := SumOfInputs(recs[..|recs| - 1], cid);
      var last := recs[|recs| - 1];
      if last.InputDiff? && last.cid == cid then Add(s, last.diff) else s
  }

  lemma AddAssociative(a: Input, b: Input, c: Input)
    ensures Add(a, Add(b, c)) == Add(Add(a, b), c) && Add(a, ZERO_INPUT) == a
  {
  }

  /** The same for inputs: the last whole input plus the sum, field by field, of the later differences. */
  lemma {:induction false} InputIsSum(before: seq<Record>, abs: Record, after: seq<Record>)
    requires abs.InputNew? && NoNewInput(after, abs.cid)
    ensures var inputs := Inputs(before + [abs] + after);
      abs.cid in inputs && inputs[abs.cid] == Add(abs.input, SumOfInputs(after, abs.cid))
    decreases |after|
  {
    hide Add;
    var all := before + [abs] + after;
    if after == [] {
      assert all[..|all| - 1] == before && all[|all| - 1] == abs;
      AddAssociative(abs.input, ZERO_INPUT, ZERO_INPUT);
    } else {
      var front, last := after[..|after| - 1], after[|after| - 1];
      InputIsSum(before, abs, front);
      assert all[..|all| - 1] == before + [abs] + front && all[|all| - 1] == last;
      if last.InputDiff? {
        AddAssociative(abs.input, SumOfInputs(front, abs.cid), last.diff);
      }
    }
  }

  predicate HasInputDiff(recs: seq<Record>, cid: int) {
    exists i :: 0 <= i < |recs| && recs[i].InputDiff? && recs[i].cid == cid
  }

  /** An input that was never given whole counts from zero. */
  lemma {:induction false} InputFromZero(before: seq<Record>, after: seq<Record>, cid: int)
    requires cid !in Inputs(before) && NoNewInput(after, cid)
    ensures var inputs := Inputs(before + after);
      && (cid in inputs <==> HasInputDiff(after, cid))
      && (cid in inputs ==> inputs[cid] == SumOfInputs(after, cid))
    ensures !HasInputDiff(after, cid) ==> SumOfInputs(after, cid) == ZERO_INPUT
    decreases |after|
  {
    hide Add;
    var all := before + after;
    if after == [] {
      assert all == before;
    } else {
      var front, last := after[..|after| - 1], after[|after| - 1];
      InputFromZero(before, front, cid);
      assert all[..|all| - 1] == before + front && all[|all| - 1] == last;
      assert HasInputDiff(after, cid) <==> HasInputDiff(front, cid) || (last.InputDiff? && last.cid == cid) by {
        if i :| 0 <= i < |front| && front[i].InputDiff? && front[i].cid == cid {
          assert after[i].cid == cid;
        }
      }
    }
  }

  // ---------- where the ticks end

  /** The frame of tick `tick` shows the first `upto` records. */
  datatype Boundary = Boundary(tick: int, upto: nat)

  datatype Clock = Clock(tick: int, lastCid: int, dirty: bool, done: seq<Boundary>)

  predicate IsPlayerRecord(rec: Record) {
    rec.PlayerNew? || rec.PlayerDiff? || rec.PlayerOld?
  }

  predicate IsInputRecord(rec: Record) {
    rec.InputNew? || rec.InputDiff?
  }

  function StepClock(c: Clock, rec: Record, n: nat): Clock {
    if rec.TickSkip? then
      Clock(c.tick + rec.dt + 1, -1, false, if c.dirty then c.done + [Boundary(c.tick, n)] else c.done)
    else if IsPlayerRecord(rec) then
      if c.dirty && rec.cid <= c.lastCid then
        Clock(c.tick + 1, rec.cid, true, c.done + [Boundary(c.tick, n)])
      else
        c.(lastCid := rec.cid, dirty := true)
    else if IsInputRecord(rec) then
      c.(dirty := true)
    else
      c
  }

  function RunClock(recs: seq<Record>): Clock {
    if recs == [] then Clock(0, -1, false, [])
    else StepClock(RunClock(recs[..|recs| - 1]), recs[|recs| - 1], |recs| - 1)
  }

  function Boundaries(recs: seq<Record>): seq<Boundary> {
    var c := RunClock(recs);
    if c.dirty then c.done + [Boundary(c.tick, |recs|)] else c.done
  }

  function FrameAt(recs: seq<Record>, b: Boundary): Frame
    requires b.upto <= |recs|
  {
    Frame(b.tick, Players(recs[..b.upto]), Inputs(recs[..b.upto]))
  }

  predicate Within(bs: seq<Boundary>, n: nat) {
    forall i :: 0 <= i < |bs| ==> bs[i].upto <= n
  }

  function FramesAt(recs: seq<Record>, bs: seq<Boundary>): seq<Frame>
    requires Within(bs, |recs|)
  {
    seq(|bs|, i requires 0 <= i < |bs| => FrameAt(recs, bs[i]))
  }

  predicate TicksIncrease(bs: seq<Boundary>) {
    forall i, j :: 0 <= i < j < |bs| ==> bs[i].tick < bs[j].tick
  }

  predicate RecordsIncrease(bs: seq<Boundary>) {
    forall i, j :: 0 <= i < j < |bs| ==> bs[i].upto < bs[j].upto
  }

  /** A record that a frame must show. */
  predicate Shown(rec: Record) {
    IsPlayerRecord(rec) || IsInputRecord(rec)
  }

  // every record is shown, whatever the skips are

  function LastUpto(bs: seq<Boundary>): nat {
    if bs == [] then 0 else bs[|bs| - 1].upto
  }

  ghost predicate ClockInv(recs: seq<Record>, c: Clock) {
    && Within(c.done, |recs|) && RecordsIncrease(c.done)
    && (c.dirty <==> Pending(recs, LastUpto(c.done)))
  }

  /** Some record from the given index on is still to be shown. */
  predicate Pending(recs: seq<Record>, from: nat) {
    exists k :: from <= k < |recs| && Shown(recs[k])
  }

  lemma PendingStep(recs: seq<Record>, rec: Record, from: nat)
    ensures from <= |recs| ==> (Pending(recs + [rec], from) <==> Pending(recs, from) || Shown(rec))
  {
    if Pending(recs, from) {
      var k :| from <= k < |recs| && Shown(recs[k]);
      assert Shown((recs + [rec])[k]);
    }
    if Shown(rec) && from <= |recs| {
      assert Shown((recs + [rec])[|recs|]);
    }
  }

  lemma StepKeepsInv(recs: seq<Record>, c: Clock, rec: Record)
    requires ClockInv(recs, c)
    ensures ClockInv(recs + [rec], StepClock(c, rec, |recs|))
  {
    var c' := StepClock(c, rec, |recs|);
    PendingStep(recs, rec, LastUpto(c.done));
    PendingStep(recs, rec, |recs|);
    if c'.done != c.done {
      hide Shown;
      assert Pending(recs, LastUpto(c.done)) && !Pending(recs, |recs|);
      assert LastUpto(c'.done) == |recs|;
    }
  }

  lemma {:induction false} RunKeepsInv(recs: seq<Record>)
    ensures ClockInv(recs, RunClock(recs))
  {
    if recs != [] {
      var n := |recs| - 1;
      RunKeepsInv(recs[..n]);
      StepKeepsInv(recs[..n], RunClock(recs[..n]), recs[n]);
      assert recs == recs[..n] + [recs[n]];
    }
  }

  /** Each frame shows more records than the one before it, and every player or input record is shown by some frame. */
  lemma FramesCoverAll(recs: seq<Record>)
    ensures Within(Boundaries(recs), |recs|) && RecordsIncrease(Boundaries(recs))
    ensures forall k :: 0 <= k < |recs| && Shown(recs[k]) ==> k < LastUpto(Boundaries(recs))
  {
    RunKeepsInv(recs);
  }

  // where exactly the frames end, said without the clock

  /** The client id of the latest player record, unless a skip came after it. */
  function LastCid(recs: seq<Record>): int {
    if recs == [] then -1
    else
      var last := recs[|recs| - 1];
      if last.TickSkip? then -1 else if IsPlayerRecord(last) then last.cid else LastCid(recs[..|recs| - 1])
  }

  /** Record j starts another tick: it is a skip, or a player record whose client id does not increase. */
  predicate Starts(recs: seq<Record>, j: nat)
    requires j < |recs|
  {
    recs[j].TickSkip? || (IsPlayerRecord(recs[j]) && recs[j].cid <= LastCid(recs[..j]))
  }

  /** Something has been shown since the latest record that started a tick. */
  predicate Open(recs: seq<Record>) {
    exists k :: 0 <= k < |recs| && OpenSince(recs, k)
  }

  predicate OpenSince(recs: seq<Record>, k: nat) {
    k < |recs| && Shown(recs[k]) && forall m :: k < m < |recs| ==> !Starts(recs, m)
  }

  /** A frame ends before record j, or, for the last j, with the list. */
  predicate EndsAt(recs: seq<Record>, j: nat)
    requires j <= |recs|
  {
    Open(recs[..j]) && (j < |recs| ==> Starts(recs, j))
  }

  function SkippedTicks(recs: seq<Record>): int {
    if recs == [] then 0
    else SkippedTicks(recs[..|recs| - 1]) + if recs[|recs| - 1].TickSkip? then recs[|recs| - 1].dt + 1 else 0
  }

  /** How many frames a player record has ended. */
  function ImplicitEnds(recs: seq<Record>): nat {
    if recs == [] then 0
    else
      var n := |recs| - 1;
      ImplicitEnds(recs[..n]) + if IsPlayerRecord(recs[n]) && EndsAt(recs, n) then 1 else 0
  }

  predicate IsEnd(recs: seq<Record>, b: Boundary) {
    b.upto <= |recs| && EndsAt(recs, b.upto) && b.tick == SkippedTicks(recs[..b.upto]) + ImplicitEnds(recs[..b.upto])
  }

  lemma StartsWithin(recs: seq<Record>, n: nat, m: nat)
    requires m < n <= |recs|
    ensures Starts(recs[..n], m) <==> Starts(recs, m)
  {
    assert recs[..n][..m] == recs[..m];
  }

  lemma OpenStep(recs: seq<Record>, rec: Record)
    ensures Open(recs + [rec]) <==> Shown(rec) || (Open(recs) && !Starts(recs + [rec], |recs|))
  {
    hide Starts, Shown;
    var more, n := recs + [rec], |recs|;
    assert more[..n] == recs;
    forall m | 0 <= m < n ensures Starts(more, m) <==> Starts(recs, m) {
      StartsWithin(more, n, m);
    }
    if Shown(rec) {
      assert OpenSince(more, n);
    } else if Open(recs) && !Starts(more, n) {
      var k: nat :| k < n && OpenSince(recs, k);
      assert OpenSince(more, k);
    }
    if Open(more) && !Shown(rec) {
      var k: nat :| k < |more| && OpenSince(more, k);
      assert more[n] == rec && k < n;
      assert OpenSince(recs, k) && !Starts(more, n);
    }
  }

  lemma EndsStep(recs: seq<Record>, rec: Record, b: Boundary)
    ensures b.upto < |recs| ==> (IsEnd(recs + [rec], b) <==> IsEnd(recs, b))
    ensures b.upto == |recs| ==>
      (IsEnd(recs + [rec], b) <==>
        Open(recs) && Starts(recs + [rec], |recs|) && b.tick == SkippedTicks(recs) + ImplicitEnds(recs))
  {
    hide LastCid, Open, SkippedTicks, ImplicitEnds;
    var more := recs + [rec];
    if b.upto <= |recs| {
      assert more[..b.upto] == recs[..b.upto];
      if b.upto == |recs| {
        assert more[..b.upto] == recs;
      }
    }
  }

  /** The clock holds the frames that have ended, and what is needed for the next end. */
  ghost predicate ClockIs(recs: seq<Record>, c: Clock) {
    && c.lastCid == LastCid(recs) && (c.dirty <==> Open(recs)) && c.tick == SkippedTicks(recs) + ImplicitEnds(recs)
    && forall b :: b in c.done <==> b.upto < |recs| && IsEnd(recs, b)
  }

  lemma ClockStep(recs: seq<Record>, c: Clock, rec: Record)
    requires ClockIs(recs, c)
    ensures ClockIs(recs + [rec], StepClock(c, rec, |recs|))
  {
    hide Open, IsEnd;
    var more, n, c' := recs + [rec], |recs|, StepClock(c, rec, |recs|);
    assert more[..n] == recs && more[n] == rec;
    OpenStep(recs, rec);
    forall b: Boundary ensures b in c'.done <==> b.upto < n + 1 && IsEnd(more, b) {
      EndsStep(recs, rec, b);
      assert b in c'.done <==> b in c.done || (c'.done != c.done && b == Boundary(c.tick, n));
    }
  }

  lemma {:induction false} ClockRuns(recs: seq<Record>)
    ensures ClockIs(recs, RunClock(recs))
  {
    hide ClockIs, StepClock;
    if recs == [] {
      ClockStarts();
    } else {
      var n := |recs| - 1;
      ClockRuns(recs[..n]);
      ClockStep(recs[..n], RunClock(recs[..n]), recs[n]);
      assert recs == recs[..n] + [recs[n]];
    }
  }

  lemma ClockStarts()
    ensures ClockIs([], RunClock([]))
  {
  }

  /**
   A frame ends exactly before a skip, before a player record whose client id does not increase, and with the
   list, wherever something is still to be shown; and its tick is the sum of the skips before it plus the number
   of frames that player records have ended before it.
   */
  lemma BoundariesAre(recs: seq<Record>, b: Boundary)
    ensures b in Boundaries(recs) <==> IsEnd(recs, b)
  {
    hide Open, IsEnd, ClockIs;
    ClockRuns(recs);
    EndOfList(recs, RunClock(recs), b);
  }

  lemma EndOfList(recs: seq<Record>, c: Clock, b: Boundary)
    requires ClockIs(recs, c)
    ensures b in (if c.dirty then c.done + [Boundary(c.tick, |recs|)] else c.done) <==> IsEnd(recs, b)
  {
    hide Open;
    assert recs[..|recs|] == recs;
  }

  /** Within a frame client ids increase: two player records with no end between them are in order. */
  lemma IdsIncreaseWithinFrames(recs: seq<Record>, i: nat, j: nat)
    requires i < j < |recs| && IsPlayerRecord(recs[i]) && IsPlayerRecord(recs[j])
    requires forall b :: b in Boundaries(recs) ==> !(i < b.upto <= j)
    ensures recs[i].cid < recs[j].cid
  {
    hide Boundaries;
    NoStartBetween(recs, i, j);
    LastCidGrows(recs, i, j);
  }

  lemma {:induction false} NoStartBetween(recs: seq<Record>, i: nat, j: nat)
    requires i <= j < |recs| && Shown(recs[i])
    requires forall b :: b in Boundaries(recs) ==> !(i < b.upto <= j)
    ensures forall m :: i < m <= j ==> !Starts(recs, m)
  {
    hide Boundaries, Starts, SkippedTicks, ImplicitEnds;
    if i < j {
      NoStartBetween(recs, i, j - 1);
      if Starts(recs, j) {
        var front := recs[..j];
        forall m | i < m < j ensures !Starts(front, m) {
          StartsWithin(recs, j, m);
          assert !Starts(recs, m);
        }
        assert OpenSince(front, i);
        BoundariesAre(recs, Boundary(SkippedTicks(front) + ImplicitEnds(front), j));
        assert false;
      }
    }
  }

  lemma {:induction false} LastCidGrows(recs: seq<Record>, i: nat, j: nat)
    requires i < j < |recs| && IsPlayerRecord(recs[i]) && forall m :: i < m <= j ==> !Starts(recs, m)
    ensures recs[i].cid <= LastCid(recs[..j]) && (IsPlayerRecord(recs[j]) ==> recs[i].cid < recs[j].cid)
    decreases j
  {
    assert recs[..j][..j - 1] == recs[..j - 1] && recs[..j][j - 1] == recs[j - 1];
    if i < j - 1 {
      LastCidGrows(recs, i, j - 1);
      assert !Starts(recs, j - 1);
    }
    assert !Starts(recs, j);
  }

  /** Positions and inputs are shown; alone, no other record is. */
  lemma OneRecord(rec: Record)
    ensures Boundaries([rec]) == match rec
                                 case PlayerNew(_, _, _) => [Boundary(0, 1)]
                                 case PlayerDiff(_, _, _) => [Boundary(0, 1)]
                                 case PlayerOld(_) => [Boundary(0, 1)]
                                 case InputNew(_, _) => [Boundary(0, 1)]
                                 case InputDiff(_, _) => [Boundary(0, 1)]
                                 case _ => []
  {
    var recs := [rec];
    assert recs[..0] == [];
    assert RunClock(recs) == StepClock(Clock(0, -1, false, []), rec, 0);
    assert Boundaries(recs) == if Shown(rec) then [Boundary(0, 1)] else [];
  }

  /** A single player that moves tick after tick gives a frame for each. */
  lemma LonePlayerExample()
    ensures Boundaries([PlayerNew(0, 0, 0), PlayerDiff(0, 1, 0), PlayerDiff(0, 1, 0)])
      == [Boundary(0, 1), Boundary(1, 2), Boundary(2, 3)]
  {
    var recs := [PlayerNew(0, 0, 0), PlayerDiff(0, 1, 0), PlayerDiff(0, 1, 0)];
    assert recs[..2] == [PlayerNew(0, 0, 0), PlayerDiff(0, 1, 0)];
    assert recs[..2][..1] == [PlayerNew(0, 0, 0)] && recs[..2][..1][..0] == [];
    assert RunClock(recs[..2][..1]) == Clock(0, 0, true, []);
    assert RunClock(recs[..2]) == Clock(1, 0, true, [Boundary(0, 1)]);
  }

  // when the ticks increase

  /** Since the last shown record, if there is one: the number of skips and how far they moved the tick. */
  datatype Gap = Gap(seen: bool, skips: nat, ticks: int)

  function GapAfter(recs: seq<Record>): Gap {
    if recs == [] then Gap(false, 0, 0)
    else
      var g, last := GapAfter(recs[..|recs| - 1]), recs[|recs| - 1];
      if Shown(last) then Gap(true, 0, 0)
      else if last.TickSkip? then Gap(g.seen, g.skips + 1, g.ticks + last.dt + 1)
      else g
  }

  /** Wherever skips stand between one shown record and the next, together they move the tick forward. */
  predicate SkipsAdvance(recs: seq<Record>) {
    recs == [] ||
    (var front, g := recs[..|recs| - 1], GapAfter(recs[..|recs| - 1]);
     SkipsAdvance(front) && (Shown(recs[|recs| - 1]) && g.seen && g.skips > 0 ==> g.ticks > 0))
  }

  lemma IncreaseByOne(bs: seq<Boundary>, b: Boundary)
    ensures TicksIncrease(bs + [b]) <==> TicksIncrease(bs) && (bs == [] || bs[|bs| - 1].tick < b.tick)
  {
    var more := bs + [b];
    assert forall i :: 0 <= i < |bs| ==> more[i] == bs[i];
    if TicksIncrease(more) {
      forall i, j | 0 <= i < j < |bs| ensures bs[i].tick < bs[j].tick {
        assert more[i].tick < more[j].tick;
      }
      assert bs != [] ==> more[|bs| - 1].tick < more[|bs|].tick;
    }
  }

  /** The clock keeps the gap: nothing is pending exactly after a skip, and then the tick has moved by the gap. */
  predicate GapInv(c: Clock, g: Gap) {
    && (c.dirty <==> g.seen && g.skips == 0)
    && (g.skips == 0 ==> g.ticks == 0) && (!g.seen ==> c.done == [])
    && (g.seen && g.skips > 0 ==> c.done != [] && c.tick == c.done[|c.done| - 1].tick + g.ticks)
  }

  lemma {:induction false} RunKeepsGap(recs: seq<Record>)
    ensures GapInv(RunClock(recs), GapAfter(recs))
  {
    if recs != [] {
      RunKeepsGap(recs[..|recs| - 1]);
    }
  }

  /** The yielded ticks strictly increase if and only if the skips between shown records advance. */
  lemma {:induction false} TicksIncreaseIff(recs: seq<Record>)
    ensures TicksIncrease(Boundaries(recs)) <==> SkipsAdvance(recs)
  {
    hide TicksIncrease;
    if recs == [] {
      NoTicks();
    } else {
      var n := |recs| - 1;
      var front, last := recs[..n], recs[n];
      var c := RunClock(front);
      TicksIncreaseIff(front);
      RunKeepsGap(front);
      NoTicks();
      IncreaseByOne(c.done, Boundary(c.tick, n));
      IncreaseByOne(c.done, Boundary(c.tick, n + 1));
      IncreaseByOne(c.done + [Boundary(c.tick, n)], Boundary(c.tick + 1, n + 1));
      if last.TickSkip? || !Shown(last) {
        assert TicksIncrease(Boundaries(recs)) <==> TicksIncrease(Boundaries(front));
      } else if c.dirty {
        assert TicksIncrease(Boundaries(recs)) <==> TicksIncrease(Boundaries(front));
      } else {
        assert Boundaries(front) == c.done && Boundaries(recs) == c.done + [Boundary(c.tick, n + 1)];
      }
    }
  }

  lemma NoTicks()
    ensures TicksIncrease([])
  {
  }

  /** Skips that are not negative always advance. */
  lemma {:induction false} NonNegativeSkipsAdvance(recs: seq<Record>)
    requires forall i :: 0 <= i < |recs| && recs[i].TickSkip? ==> recs[i].dt >= 0
    ensures SkipsAdvance(recs) && GapAfter(recs).ticks >= GapAfter(recs).skips
  {
    if recs != [] {
      NonNegativeSkipsAdvance(recs[..|recs| - 1]);
    }
  }

  lemma {:induction false} BoundariesWithin(recs: seq<Record>)
    ensures Within(RunClock(recs).done, |recs|) && Within(Boundaries(recs), |recs|)
  {
    if recs != [] {
      BoundariesWithin(recs[..|recs| - 1]);
    }
  }

  /** A skip by -1 does not advance: two frames carry the same tick. */
  lemma NegativeSkipRepeatsTick()
    ensures var recs := [PlayerNew(0, 0, 0), TickSkip(-1), PlayerDiff(0, 1, 1)];
      Boundaries(recs) == [Boundary(0, 1), Boundary(0, 3)]
  {
    var recs := [PlayerNew(0, 0, 0), TickSkip(-1), PlayerDiff(0, 1, 1)];
    assert recs[..2] == [PlayerNew(0, 0, 0), TickSkip(-1)];
    assert recs[..2][..1] == [PlayerNew(0, 0, 0)];
    assert recs[..2][..1][..0] == [];
    assert RunClock(recs[..2][..1]) == Clock(0, 0, true, []);
    assert RunClock(recs[..2]) == Clock(0, -1, false, [Boundary(0, 1)]);
    assert RunClock(recs) == Clock(0, 0, true, [Boundary(0, 1)]);
  }

  // ---------- the loop

  /**
   File.Ticks. The consumer accepts `limit` frames and then asks to stop, so what it has seen is the
   list of frames cut after `limit` of them.
   */
  method Replay(recs: seq<Record>, limit: nat) returns (frames: seq<Frame>)
    requires limit > 0
    ensures Within(Boundaries(recs), |recs|)
    ensures var all := FramesAt(recs, Boundaries(recs));
      frames == if |all| <= limit then all else all[..limit]
  {
    hide RunClock, Players, Inputs, FramesAt, MovePlayers, ChangeInputs;
    BoundariesWithin(recs);
    Start(recs);
    frames := [];
    var pos: map<int, Pos>, input: map<int, Input> := map[], map[];
    var tick, lastCid, dirty := 0, -1, false;
    for i := 0 to |recs|
      invariant Within(RunClock(recs[..i]).done, i)
      invariant RunClock(recs[..i]) == Clock(tick, lastCid, dirty, RunClock(recs[..i]).done)
      invariant pos == Players(recs[..i]) && input == Inputs(recs[..i])
      invariant frames == FramesAt(recs, RunClock(recs[..i]).done) && |frames| < limit
    {
      var rec := recs[i];
      OneMore(recs, i);
      var ends := dirty && (rec.TickSkip? || (IsPlayerRecord(rec) && rec.cid <= lastCid));
      if ends {
        FramesGrow(recs, RunClock(recs[..i]).done, Boundary(tick, i));
        frames := frames + [Frame(tick, pos, input)];
        if |frames| == limit {
          CutFrames(recs, i + 1);
          return;
        }
      }
      if IsPlayerRecord(rec) {
        tick, lastCid, dirty := if ends then tick + 1 else tick, rec.cid, true;
      } else if rec.TickSkip? {
        tick, lastCid, dirty := tick + rec.dt + 1, -1, false;
      } else if IsInputRecord(rec) {
        dirty := true;
      }
      pos, input := MovePlayers(pos, rec), ChangeInputs(input, rec);
    }
    assert recs[..|recs|] == recs;
    if dirty {
      FramesGrow(recs, RunClock(recs).done, Boundary(tick, |recs|));
      frames := frames + [Frame(tick, pos, input)];
    }
  }

  lemma Start(recs: seq<Record>)
    ensures RunClock(recs[..0]) == Clock(0, -1, false, [])
    ensures Players(recs[..0]) == map[] && Inputs(recs[..0]) == map[] && FramesAt(recs, []) == []
  {
  }

  lemma OneMore(recs: seq<Record>, i: nat)
    requires i < |recs|
    ensures RunClock(recs[..i + 1]) == StepClock(RunClock(recs[..i]), recs[i], i)
    ensures Players(recs[..i + 1]) == MovePlayers(Players(recs[..i]), recs[i])
    ensures Inputs(recs[..i + 1]) == ChangeInputs(Inputs(recs[..i]), recs[i])
  {
    assert recs[..i + 1][..i] == recs[..i];
  }

  /** The frames emitted after i records are a prefix of all frames. */
  lemma CutFrames(recs: seq<Record>, i: nat)
    requires i <= |recs|
    ensures Within(RunClock(recs[..i]).done, |recs|) && Within(Boundaries(recs), |recs|)
    ensures FramesAt(recs, RunClock(recs[..i]).done) <= FramesAt(recs, Boundaries(recs))
  {
    BoundariesWithin(recs);
    DoneIsPrefix(recs, i);
  }

  lemma FramesGrow(recs: seq<Record>, bs: seq<Boundary>, b: Boundary)
    requires Within(bs, |recs|) && b.upto <= |recs|
    ensures Within(bs + [b], |recs|) && FramesAt(recs, bs + [b]) == FramesAt(recs, bs) + [FrameAt(recs, b)]
  {
    assert forall i :: 0 <= i < |bs| ==> (bs + [b])[i] == bs[i];
    assert (bs + [b])[|bs|] == b;
  }

  /** Boundaries already found do not change when more records arrive. */
  lemma {:induction false} DoneIsPrefix(recs: seq<Record>, i: nat)
    requires i <= |recs|
    ensures RunClock(recs[..i]).done <= RunClock(recs).done
  {
    if i == |recs| {
      assert recs[..i] == recs;
    } else {
      DoneIsPrefix(recs[..|recs| - 1], i);
      assert recs[..|recs| - 1][..i] == recs[..i];
    }
  }
}
