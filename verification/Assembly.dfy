/**
 Snapshot messages of the reader: whole, empty or in parts. Parts are gathered by index until as many have
 arrived as there should be; what was gathered is proved to be the payload exactly when no part that holds
 anything is missing, in whatever order the parts came.
 */
module Assembly {
  import opened Wire
  import opened Cursor
  import opened SnapWindow

  datatype Part = Part(tick: int, deltaTick: int, numParts: int, index: int, data: seq<byte>)

  datatype Gathered = Gathered(tick: int, numParts: int, parts: seq<seq<byte>>, received: nat)

  // ---------- what a message says

  /** SNAPSINGLE: tick, delta tick, checksum and the payload with its size. */
  function ReadSingle(s: seq<byte>): Parsed<Packet> {
    var (head, s1) :- ReadInts(s, 4);
    var (data, rest) :- ReadRaw(s1, head[3]);
    Ok(Packet(head[0], head[1], data), rest)
  }

  function ReadEmpty(s: seq<byte>): Parsed<Packet> {
    var (head, rest) :- ReadInts(s, 2);
    Ok(Packet(head[0], head[1], []), rest)
  }

  function ReadPart(s: seq<byte>): Parsed<Part> {
    var (head, s1) :- ReadInts(s, 6);
    var (data, rest) :- ReadRaw(s1, head[5]);
    Ok(Part(head[0], head[1], head[2], head[3], data), rest)
  }

  function WriteSingle(p: Packet, crc: int): seq<byte> {
    AppendInts([p.tick, p.deltaTick, crc, |p.data|]) + p.data
  }

  function WritePart(p: Part, crc: int): seq<byte> {
    AppendInts([p.tick, p.deltaTick, p.numParts, p.index, crc, |p.data|]) + p.data
  }

  lemma SingleRoundTrip(p: Packet, crc: int, rest: seq<byte>)
    requires IsInt32(p.tick) && IsInt32(p.deltaTick) && IsInt32(crc) && |p.data| <= MAX_INT32
    ensures ReadSingle(WriteSingle(p, crc) + rest) == Ok(p, rest)
  {
    hide AppendInts, ReadInts;
    var head := [p.tick, p.deltaTick, crc, |p.data|];
    assert AppendInts(head) + p.data + rest == AppendInts(head) + (p.data + rest);
    ReadIntsOfAppend(head, p.data + rest);
    ReadRawOfAppend(p.data, rest);
  }

  lemma PartRoundTrip(p: Part, crc: int, rest: seq<byte>)
    requires IsInt32(p.tick) && IsInt32(p.deltaTick) && IsInt32(p.numParts) && IsInt32(p.index) && IsInt32(crc)
    requires |p.data| <= MAX_INT32
    ensures ReadPart(WritePart(p, crc) + rest) == Ok(p, rest)
  {
    hide AppendInts, ReadInts;
    var head := [p.tick, p.deltaTick, p.numParts, p.index, crc, |p.data|];
    assert AppendInts(head) + p.data + rest == AppendInts(head) + (p.data + rest);
    ReadIntsOfAppend(head, p.data + rest);
    ReadRawOfAppend(p.data, rest);
  }

  // ---------- gathering parts

  function Join(parts: seq<seq<byte>>): seq<byte> {
    if parts == [] then [] else Join(parts[..|parts| - 1]) + parts[|parts| - 1]
  }

  function Empty(tick: int, numParts: nat): Gathered {
    Gathered(tick, numParts, seq(numParts, _ => []), 0)
  }

  /** Parts of another tick, or of another number, start over. */
  function Gather(g: Option<Gathered>, p: Part): Gathered
    requires p.numParts >= 0 && Fits(g)
  {
    var g := if g.Some? && g.value.tick == p.tick && g.value.numParts == p.numParts then g.value
             else Empty(p.tick, p.numParts);
    if 0 <= p.index < p.numParts then g.(parts := g.parts[p.index := p.data], received := g.received + 1) else g
  }

  predicate Fits(g: Option<Gathered>) {
    g.Some? ==> |g.value.parts| == g.value.numParts
  }

  predicate Indices(arrivals: seq<nat>, n: nat) {
    forall k :: 0 <= k < |arrivals| ==> arrivals[k] < n
  }

  /** The parts of one payload, as they arrive. */
  function GatherAll(g: Option<Gathered>, tick: int, pieces: seq<seq<byte>>, arrivals: seq<nat>): (g': Option<Gathered>)
    requires Fits(g) && Indices(arrivals, |pieces|)
    ensures Fits(g')
  {
    if arrivals == [] then g
    else
      var i := arrivals[|arrivals| - 1];
      Some(Gather(GatherAll(g, tick, pieces, arrivals[..|arrivals| - 1]), Part(tick, 0, |pieces|, i, pieces[i])))
  }

  /** What has been gathered after some arrivals: their pieces in their places, and their count. */
  predicate Holds(g: Option<Gathered>, tick: int, pieces: seq<seq<byte>>, arrivals: seq<nat>) {
    && g.Some? && g.value.tick == tick && g.value.numParts == |pieces| == |g.value.parts|
    && g.value.received == |arrivals|
    && forall i :: 0 <= i < |pieces| ==> g.value.parts[i] == if i in arrivals then pieces[i] else []
  }

  lemma GatherFirst(g: Option<Gathered>, tick: int, pieces: seq<seq<byte>>, i: nat)
    requires Fits(g) && (g.Some? ==> g.value.tick != tick || g.value.numParts != |pieces|) && i < |pieces|
    ensures Holds(Some(Gather(g, Part(tick, 0, |pieces|, i, pieces[i]))), tick, pieces, [i])
  {
  }

  lemma GatherOneMore(g: Option<Gathered>, tick: int, pieces: seq<seq<byte>>, arrivals: seq<nat>, i: nat)
    requires Fits(g) && Holds(g, tick, pieces, arrivals) && i < |pieces|
    ensures Holds(Some(Gather(g, Part(tick, 0, |pieces|, i, pieces[i]))), tick, pieces, arrivals + [i])
  {
  }

  lemma {:induction false} GatheredSoFar(g: Option<Gathered>, tick: int, pieces: seq<seq<byte>>, arrivals: seq<nat>)
    requires Fits(g) && (g.Some? ==> g.value.tick != tick || g.value.numParts != |pieces|)
    requires arrivals != [] && Indices(arrivals, |pieces|)
    ensures Holds(GatherAll(g, tick, pieces, arrivals), tick, pieces, arrivals)
  {
    hide Gather, Holds;
    var front, last := arrivals[..|arrivals| - 1], arrivals[|arrivals| - 1];
    assert arrivals == front + [last];
    if front == [] {
      assert arrivals == [last];
      GatherFirst(g, tick, pieces, last);
    } else {
      GatheredSoFar(g, tick, pieces, front);
      GatherOneMore(GatherAll(g, tick, pieces, front), tick, pieces, front, last);
    }
  }

  lemma {:induction false} JoinIff(parts: seq<seq<byte>>, pieces: seq<seq<byte>>)
    requires |parts| == |pieces| && forall i :: 0 <= i < |parts| ==> parts[i] == pieces[i] || parts[i] == []
    ensures |Join(parts)| <= |Join(pieces)|
    ensures Join(parts) == Join(pieces) <==> forall i :: 0 <= i < |parts| ==> parts[i] == pieces[i]
    ensures |Join(parts)| == |Join(pieces)| <==> forall i :: 0 <= i < |parts| ==> parts[i] == pieces[i]
  {
    if parts != [] {
      var n := |parts| - 1;
      JoinIff(parts[..n], pieces[..n]);
      assert forall i :: 0 <= i < n ==> parts[..n][i] == parts[i] && pieces[..n][i] == pieces[i];
    }
  }

  /**
   The message is taken for complete at the arrival that makes the count right. The payload is then the
   pieces in index order, whatever the order of arrival, exactly when every piece that is not empty has
   arrived. Only the count is checked, so a repeated part can make a message complete too early.
   */
  lemma AssembledIff(g: Option<Gathered>, tick: int, pieces: seq<seq<byte>>, arrivals: seq<nat>)
    requires Fits(g) && (g.Some? ==> g.value.tick != tick || g.value.numParts != |pieces|)
    requires arrivals != [] && Indices(arrivals, |pieces|)
    ensures var g' := GatherAll(g, tick, pieces, arrivals);
      && g'.Some? && (g'.value.received == g'.value.numParts <==> |arrivals| == |pieces|)
      && (Join(g'.value.parts) == Join(pieces) <==> forall i :: 0 <= i < |pieces| && pieces[i] != [] ==> i in arrivals)
  {
    hide Join, GatherAll;
    GatheredSoFar(g, tick, pieces, arrivals);
    var parts := GatherAll(g, tick, pieces, arrivals).value.parts;
    JoinIff(parts, pieces);
  }

  /** The same part twice completes a message of two parts, and the payload lacks the other one. */
  lemma RepeatedPartExample()
    ensures var pieces := [[1 as byte], [2]];
      var g := GatherAll(None, 0, pieces, [0, 0]);
      g.Some? && g.value.received == g.value.numParts && Join(g.value.parts) != Join(pieces)
  {
    hide Join, GatherAll;
    AssembledIff(None, 0, [[1], [2]], [0, 0]);
    assert 1 !in [0, 0];
  }

  /** Without repetitions the count is right exactly when all parts are there. */
  lemma DistinctPartsAssemble(g: Option<Gathered>, tick: int, pieces: seq<seq<byte>>, arrivals: seq<nat>)
    requires Fits(g) && (g.Some? ==> g.value.tick != tick || g.value.numParts != |pieces|)
    requires arrivals != [] && Indices(arrivals, |pieces|)
    requires forall j, k :: 0 <= j < k < |arrivals| ==> arrivals[j] != arrivals[k]
    ensures var g' := GatherAll(g, tick, pieces, arrivals);
      g'.Some? && (g'.value.received == g'.value.numParts ==> Join(g'.value.parts) == Join(pieces))
  {
    hide Join, GatherAll;
    AssembledIff(g, tick, pieces, arrivals);
    if |arrivals| == |pieces| {
      AllThere(arrivals, |pieces|);
    }
  }

  lemma AllThere(arrivals: seq<nat>, n: nat)
    requires |arrivals| == n && Indices(arrivals, n)
    requires forall j, k :: 0 <= j < k < |arrivals| ==> arrivals[j] != arrivals[k]
    ensures forall i :: 0 <= i < n ==> i in arrivals
  {
    var seen := DistinctCount(arrivals);
    if i :| 0 <= i < n && i !in arrivals {
      Crowd(seen + {i}, 0, n);
      assert false;
    }
  }

  lemma {:induction false} DistinctCount(arrivals: seq<nat>) returns (seen: set<int>)
    requires forall j, k :: 0 <= j < k < |arrivals| ==> arrivals[j] != arrivals[k]
    ensures |seen| == |arrivals| && forall i :: i in seen ==> i in arrivals
  {
    seen := {};
    if arrivals != [] {
      var front, last := arrivals[..|arrivals| - 1], arrivals[|arrivals| - 1];
      seen := DistinctCount(front);
      assert last !in front;
      seen := seen + {last};
    }
  }
}
