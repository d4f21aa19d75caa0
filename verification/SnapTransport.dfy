/**
 Replication down to the bytes: each packet of the channel reaches the reader as one message or in parts,
 the parts of a lost packet may have arrived in part, and the reader still follows the protocol's client.
 */
module SnapTransport {
  import opened Wire
  import opened Cursor
  import opened Snapshot
  import opened SnapshotDiff
  import opened SnapWindow
  import opened Assembly
  import opened SnapReader
  import opened Replication

  /** How a packet travels: with the checksum nobody reads, and whatever follows the message's fields. */
  datatype Carrier =
    | Single(crc: int, tail: seq<byte>)
    | Bare(tail: seq<byte>)                                                              // no payload
    | Parts(pieces: seq<seq<byte>>, order: seq<nat>, crc: int, tail: seq<byte>)          // as they arrive

  predicate Distinct(order: seq<nat>) {
    forall j, k :: 0 <= j < k < |order| ==> order[j] != order[k]
  }

  /** The carrier can carry the packet. Of the parts, each arrives at most once. */
  predicate Suits(v: Carrier, p: Packet) {
    && IsInt32(p.tick) && IsInt32(p.deltaTick) && |p.data| <= MAX_INT32
    && match v
       case Single(crc, _) => IsInt32(crc)
       case Bare(_) => p.data == []
       case Parts(pieces, order, crc, _) =>
         && IsInt32(crc) && |pieces| <= MAX_INT32 && (forall i :: 0 <= i < |pieces| ==> |pieces[i]| <= MAX_INT32)
         && Join(pieces) == p.data && Indices(order, |pieces|) && Distinct(order)
  }

  /** Nothing is missing: the whole message, or all parts of it. */
  predicate Arrives(v: Carrier) {
    v.Parts? ==> |v.order| == |v.pieces| > 0
  }

  /** Parts are missing. */
  predicate FallsShort(v: Carrier) {
    v.Parts? && |v.order| < |v.pieces|
  }

  function PartAt(v: Carrier, p: Packet, i: nat): Part
    requires v.Parts? && i < |v.pieces|
  {
    Part(p.tick, p.deltaTick, |v.pieces|, i, v.pieces[i])
  }

  function MessagesOf(v: Carrier, p: Packet): (ms: seq<Message>)
    requires Suits(v, p)
    ensures |ms| == if v.Parts? then |v.order| else 1
  {
    match v
    case Single(crc, tail) => [SnapSingle(WriteSingle(p, crc) + tail)]
    case Bare(tail) => [SnapEmpty(AppendInts([p.tick, p.deltaTick]) + tail)]
    case Parts(_, order, crc, tail) =>
      seq(|order|, k requires 0 <= k < |order| => SnapPart(WritePart(PartAt(v, p, order[k]), crc) + tail))
  }

  /** Messages one after the other, each with what the buffer holds then. */
  function OnMessages(r: ReaderState, ms: seq<Message>, stales: seq<seq<int>>, c: Config): (r': ReaderState)
    requires Fits(r.asm) && |ms| == |stales|
    ensures Fits(r'.asm)
  {
    if ms == [] then r
    else
      var n := |ms| - 1;
      OnMessage(OnMessages(r, ms[..n], stales[..n], c), ms[n], c.sizes, stales[n], c.max)
  }

  /** The reader is not gathering parts that could be taken for these. */
  predicate Unrelated(asm: Option<Gathered>, tick: int) {
    asm.Some? ==> asm.value.tick != tick
  }

  // ---------- one packet

  lemma ReadPartAt(v: Carrier, p: Packet, i: nat)
    requires v.Parts? && Suits(v, p) && i < |v.pieces|
    ensures var r := ReadPart(WritePart(PartAt(v, p, i), v.crc) + v.tail);
      r.Ok? && r.value == PartAt(v, p, i)
  {
    hide ReadPart, WritePart;
    PartRoundTrip(PartAt(v, p, i), v.crc, v.tail);
  }

  lemma OnPart(r: ReaderState, v: Carrier, p: Packet, k: nat, stale: seq<int>, c: Config)
    requires v.Parts? && Suits(v, p) && k < |v.order| && Fits(r.asm)
    ensures var q := PartAt(v, p, v.order[k]);
      OnMessage(r, MessagesOf(v, p)[k], c.sizes, stale, c.max)
      == ReaderState(ArriveIfAny(r.s, Completes(r.asm, q), c.sizes, stale, c.max), Remains(r.asm, q, r.s, c.sizes, stale))
  {
    hide ReadPart, WritePart, ArriveIfAny, Completes, Remains;
    ReadPartAt(v, p, v.order[k]);
  }

  /** As long as parts are missing they are only gathered. */
  lemma {:induction false} Gathering(r: ReaderState, v: Carrier, p: Packet, stales: seq<seq<int>>, c: Config, k: nat)
    requires v.Parts? && Suits(v, p) && Fits(r.asm) && Unrelated(r.asm, p.tick)
    requires |stales| == |v.order| && k <= |v.order| && k < |v.pieces|
    ensures OnMessages(r, MessagesOf(v, p)[..k], stales[..k], c)
      == ReaderState(r.s, GatherAll(r.asm, p.tick, v.pieces, v.order[..k]))
  {
    hide OnMessage, MessagesOf, Gather, GatherAll, Suits, Arrive, Completes, ApplyBytes, Base, Indices;
    OrderIsIndices(v, p);
    if k == 0 {
      GatheredNothing(r.asm, p.tick, v.pieces, v.order[..k]);
    } else {
      var ms := MessagesOf(v, p);
      Gathering(r, v, p, stales, c, k - 1);
      assert ms[..k][..k - 1] == ms[..k - 1] && stales[..k][..k - 1] == stales[..k - 1];
      var before := ReaderState(r.s, GatherAll(r.asm, p.tick, v.pieces, v.order[..k - 1]));
      OnPart(before, v, p, k - 1, stales[k - 1], c);
      OneMore(r, v, p, k - 1);
    }
  }

  lemma OrderIsIndices(v: Carrier, p: Packet)
    requires v.Parts? && Suits(v, p)
    ensures Indices(v.order, |v.pieces|) && Distinct(v.order)
    ensures forall k :: 0 <= k <= |v.order| ==> Indices(v.order[..k], |v.pieces|)
  {
  }

  /** What part k adds; it completes the message exactly when it is the last of all. */
  lemma OneMore(r: ReaderState, v: Carrier, p: Packet, k: nat)
    requires v.Parts? && Suits(v, p) && Fits(r.asm) && Unrelated(r.asm, p.tick) && k < |v.order| && |v.pieces| > 1
    ensures var asm := GatherAll(r.asm, p.tick, v.pieces, v.order[..k]);
      var q := PartAt(v, p, v.order[k]);
      && Some(Gather(asm, q)) == GatherAll(r.asm, p.tick, v.pieces, v.order[..k + 1])
      && Completes(asm, q) == if k + 1 == |v.pieces| then Some(p) else None
  {
    hide Join;
    var front, order := v.order[..k], v.order[..k + 1];
    assert order[..|order| - 1] == front && order[|order| - 1] == v.order[k];
    AssembledIff(r.asm, p.tick, v.pieces, order);
    DistinctPartsAssemble(r.asm, p.tick, v.pieces, order);
  }

  lemma OneMessage(r: ReaderState, m: Message, stales: seq<seq<int>>, c: Config)
    requires Fits(r.asm) && |stales| == 1
    ensures OnMessages(r, [m], stales, c) == OnMessage(r, m, c.sizes, stales[0], c.max)
  {
    hide OnMessage;
    assert [m][..0] == [] && stales[..0] == [];
    assert OnMessages(r, [m][..0], stales[..0], c) == r;
  }

  lemma LastMessage(r: ReaderState, ms: seq<Message>, stales: seq<seq<int>>, c: Config)
    requires Fits(r.asm) && |ms| == |stales| > 0
    ensures var n := |ms| - 1;
      OnMessages(r, ms, stales, c)
      == OnMessage(OnMessages(r, ms[..n], stales[..n], c), ms[n], c.sizes, stales[n], c.max)
  {
    hide OnMessage;
  }

  lemma BareRoundTrip(p: Packet, tail: seq<byte>)
    requires IsInt32(p.tick) && IsInt32(p.deltaTick) && p.data == []
    ensures ReadEmpty(AppendInts([p.tick, p.deltaTick]) + tail) == Ok(p, tail)
  {
    hide AppendInts, ReadInts;
    ReadIntsOfAppend([p.tick, p.deltaTick], tail);
  }

  /** A packet that decodes is delivered by its last message, and nothing of it is left behind. */
  lemma Completed(r: ReaderState, v: Carrier, p: Packet, stales: seq<seq<int>>, c: Config)
    requires Suits(v, p) && Arrives(v) && Fits(r.asm) && Unrelated(r.asm, p.tick) && |stales| == |MessagesOf(v, p)|
    requires stales != []
    requires ApplyBytes(Base(r.s.snaps, p), p.data, c.sizes, stales[|stales| - 1]).Success?
    ensures var r' := OnMessages(r, MessagesOf(v, p), stales, c);
      r'.s == Arrive(r.s, p, c.sizes, stales[|stales| - 1], c.max) && (r'.asm == None || r'.asm == r.asm)
  {
    hide ApplyBytes, Base, ReadSingle, WriteSingle, ReadEmpty, AppendInts, ReadPart, WritePart;
    hide Arrive, Gather, GatherAll, Join;
    match v {
      case Single(crc, tail) =>
        OneMessage(r, MessagesOf(v, p)[0], stales, c);
        SingleRoundTrip(p, crc, tail);
      case Bare(tail) =>
        OneMessage(r, MessagesOf(v, p)[0], stales, c);
        BareRoundTrip(p, tail);
      case Parts(_, _, _, _) =>
        CompletedParts(r, v, p, stales, c);
    }
  }

  lemma CompletedParts(r: ReaderState, v: Carrier, p: Packet, stales: seq<seq<int>>, c: Config)
    requires v.Parts? && Suits(v, p) && Arrives(v) && Fits(r.asm) && Unrelated(r.asm, p.tick)
    requires |stales| == |v.order| && ApplyBytes(Base(r.s.snaps, p), p.data, c.sizes, stales[|stales| - 1]).Success?
    ensures var r' := OnMessages(r, MessagesOf(v, p), stales, c);
      r'.s == Arrive(r.s, p, c.sizes, stales[|stales| - 1], c.max) && (r'.asm == None || r'.asm == r.asm)
  {
    hide ApplyBytes, Base, MessagesOf, OnMessages, OnMessage, Arrive, Gather, GatherAll;
    var n := |v.order| - 1;
    var ms := MessagesOf(v, p);
    LastMessage(r, ms, stales, c);
    Gathering(r, v, p, stales, c, n);
    OrderIsIndices(v, p);
    var before := ReaderState(r.s, GatherAll(r.asm, p.tick, v.pieces, v.order[..n]));
    OnPart(before, v, p, n, stales[n], c);
    if n == 0 {
      GatheredNothing(r.asm, p.tick, v.pieces, v.order[..n]);
      OnlyPart(v, p);
    } else {
      OneMore(r, v, p, n);
    }
  }

  lemma GatheredNothing(asm: Option<Gathered>, tick: int, pieces: seq<seq<byte>>, order: seq<nat>)
    requires Fits(asm) && order == []
    ensures GatherAll(asm, tick, pieces, order) == asm
  {
  }

  lemma OnlyPart(v: Carrier, p: Packet)
    requires v.Parts? && Suits(v, p) && |v.pieces| == 1
    ensures v.pieces[0] == p.data
  {
    assert v.pieces[..0] == [];
    assert Join(v.pieces) == Join(v.pieces[..0]) + v.pieces[0];
  }

  /** Of a packet that never becomes complete nothing is delivered. */
  lemma Incomplete(r: ReaderState, v: Carrier, p: Packet, stales: seq<seq<int>>, c: Config)
    requires Suits(v, p) && FallsShort(v) && Fits(r.asm) && Unrelated(r.asm, p.tick) && |stales| == |MessagesOf(v, p)|
    ensures var r' := OnMessages(r, MessagesOf(v, p), stales, c);
      r'.s == r.s && (r'.asm == r.asm || (r'.asm.Some? && r'.asm.value.tick == p.tick))
  {
    hide MessagesOf, OnMessages, Gather, GatherAll;
    var k := |v.order|;
    assert MessagesOf(v, p)[..k] == MessagesOf(v, p) && stales[..k] == stales && v.order[..k] == v.order;
    Gathering(r, v, p, stales, c, k);
    if k == 0 {
      GatheredNothing(r.asm, p.tick, v.pieces, v.order);
    } else {
      GatheredSoFar(r.asm, p.tick, v.pieces, v.order);
    }
  }

  // ---------- runs

  /** What reaches the reader during a step: the carriers of the head packet, or of a packet that is then lost. */
  ghost predicate Reaches(r: ReaderState, r': ReaderState, w: World, s: Step, v: Carrier, stales: seq<seq<int>>, c: Config) {
    if w.channel != [] && (s.Deliver? || s == Lose(0)) then
      && Suits(v, w.channel[0]) && |stales| == |MessagesOf(v, w.channel[0])| && Fits(r.asm)
      && (if s.Deliver? then Arrives(v) && stales != [] && stales[|stales| - 1] == s.stale else FallsShort(v))
      && r' == OnMessages(r, MessagesOf(v, w.channel[0]), stales, c)
    else
      r' == r
  }

  /** A reader beside a run of the protocol, reached by nothing but the messages of its packets. */
  ghost predicate Follows(rs: seq<ReaderState>, ws: seq<World>, ss: seq<Step>, vs: seq<Carrier>,
                          stales: seq<seq<seq<int>>>, c: Config) {
    && IsRun(ws, ss, c) && |rs| == |ws| && |vs| == |stales| == |ss|
    && rs[0] == ReaderState(State(map[], 0, []), None)
    && forall k :: 0 <= k < |ss| ==> Reaches(rs[k], rs[k + 1], ws[k], ss[k], vs[k], stales[k], c)
  }

  predicate Older(tick: int, w: World) {
    tick <= w.newest && forall i :: 0 <= i < |w.channel| ==> tick < w.channel[i].tick
  }

  /** The reader is the protocol's client, and gathers nothing that a packet on its way could add to. */
  ghost predicate InStep(r: ReaderState, w: World) {
    && IsClientOf(r.s, w) && Fits(r.asm)
    && (r.asm.Some? ==> Older(r.asm.value.tick, w))
  }

  lemma DeliverStays(r: ReaderState, r': ReaderState, w: World, again: bool, stale: seq<int>, v: Carrier,
                     stales: seq<seq<int>>, c: Config)
    requires Inv(w, c) && w.channel != [] && InStep(r, w) && Reaches(r, r', w, Deliver(again, stale), v, stales, c)
    ensures InStep(r', Perform(w, Deliver(again, stale), c))
  {
    hide ApplyBytes, Base, Suits, MessagesOf, OnMessages, Arrives, Process, Carries, BaseHeld, StoreInv, AckInv;
    var p := w.channel[0];
    DecodesRight(w, 0, stale, c);
    Completed(r, v, p, stales, c);
    ArriveIsReceive(r.s, w, p, stale, c);
  }

  lemma LoseStays(r: ReaderState, r': ReaderState, w: World, i: nat, v: Carrier, stales: seq<seq<int>>, c: Config)
    requires Inv(w, c) && i < |w.channel| && InStep(r, w) && Reaches(r, r', w, Lose(i), v, stales, c)
    ensures InStep(r', Perform(w, Lose(i), c))
  {
    hide Suits, MessagesOf, OnMessages, FallsShort, Carries, BaseHeld, StoreInv, AckInv;
    var w' := Perform(w, Lose(i), c);
    assert forall j :: 0 <= j < |w'.channel| ==> w'.channel[j] == w.channel[if j < i then j else j + 1];
    if i == 0 {
      var p := w.channel[0];
      Incomplete(r, v, p, stales, c);
      CarriedTick(w.hist, p, c);
      assert forall j :: 1 <= j < |w.channel| ==> Replication.InOrder(p, w.channel[j]);
    }
  }

  lemma SendStays(r: ReaderState, w: World, s: Step, c: Config)
    requires Inv(w, c) && Enabled(w, s, c) && InStep(r, w) && (s.SendDelta? || s.SendFull?)
    ensures InStep(r, Perform(w, s, c))
  {
    hide Encodable, Encode, ChannelInv, StoreInv, AckInv;
  }

  lemma StepStaysInStep(r: ReaderState, r': ReaderState, w: World, s: Step, v: Carrier, stales: seq<seq<int>>, c: Config)
    requires Inv(w, c) && Enabled(w, s, c) && InStep(r, w) && Reaches(r, r', w, s, v, stales, c)
    ensures InStep(r', Perform(w, s, c))
  {
    hide Inv, InStep, Perform, Suits, MessagesOf, OnMessages, Arrives, FallsShort, Encodable, Encode;
    match s {
      case Deliver(again, stale) => DeliverStays(r, r', w, again, stale, v, stales, c);
      case Lose(i) => LoseStays(r, r', w, i, v, stales, c);
      case _ => SendStays(r, w, s, c);
    }
  }

  lemma {:induction false} FollowsInStep(rs: seq<ReaderState>, ws: seq<World>, ss: seq<Step>, vs: seq<Carrier>,
                                         stales: seq<seq<seq<int>>>, c: Config, k: nat)
    requires Follows(rs, ws, ss, vs, stales, c) && k < |ws|
    ensures InStep(rs[k], ws[k])
  {
    hide Inv, InStep, Perform, Reaches, Enabled, Begins;
    if k == 0 {
      BeginsInStep(rs[0], ws[0]);
    } else {
      FollowsInStep(rs, ws, ss, vs, stales, c, k - 1);
      RunKeepsInv(ws, ss, c, k - 1);
      StepStaysInStep(rs[k - 1], rs[k], ws[k - 1], ss[k - 1], vs[k - 1], stales[k - 1], c);
    }
  }

  lemma BeginsInStep(r: ReaderState, w: World)
    requires Begins(w) && r == ReaderState(State(map[], 0, []), None)
    ensures InStep(r, w)
  {
  }

  /** The tick is stored as the server built it, and acknowledged unless a newer one was. */
  predicate Took(s: State, tick: int, hist: Snaps) {
    tick in hist && tick in s.snaps && s.snaps[tick] == hist[tick] && tick <= s.lastAcked
  }

  /**
   From the bytes of its messages, in one piece or in parts that come in any order, complete or not, the
   reader only ever stores the server's snapshots, never acknowledges backwards and never exceeds its window;
   and once all messages of a packet have come, the reader has taken its snapshot.
   */
  lemma ReaderReplicates(rs: seq<ReaderState>, ws: seq<World>, ss: seq<Step>, vs: seq<Carrier>,
                         stales: seq<seq<seq<int>>>, c: Config, j: nat, k: nat)
    requires Follows(rs, ws, ss, vs, stales, c) && j <= k < |ws|
    ensures forall t :: t in rs[j].s.snaps ==> t in ws[k].hist && rs[j].s.snaps[t] == ws[k].hist[t]
    ensures rs[j].s.lastAcked <= rs[k].s.lastAcked && |rs[j].s.snaps| <= c.max + 1
    ensures k > 0 && ss[k - 1].Deliver? ==> ws[k - 1].channel != [] && Took(rs[k].s, ws[k - 1].channel[0].tick, ws[k].hist)
  {
    hide Perform, Reaches, Enabled, Begins;
    FollowsInStep(rs, ws, ss, vs, stales, c, j);
    FollowsInStep(rs, ws, ss, vs, stales, c, k);
    ReplicationIsSafe(ws, ss, c, j, k);
    if k > 0 && ss[k - 1].Deliver? {
      NoFallbackIsTaken(ws, ss, c, k - 1);
      HistoryStays(ws, ss, c, k - 1, k);
    }
  }
}
