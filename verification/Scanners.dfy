/** Packet payloads as lists of chunks, and the scanners that walk the same bytes on their own. */
module Scanners {
  import opened Wire
  import opened Cursor
  import opened ChunkCodec
  import Varint

  /** What a sender wraps: flags, sequence number and payload; the size is the payload's length. */
  datatype Msg = Msg(vital: bool, resend: bool, seqNo: int, data: seq<byte>)

  function HeaderOf(m: Msg): Header {
    Header(m.vital, m.resend, |m.data|, m.seqNo)
  }

  function AsChunk(m: Msg): Chunk {
    Chunk(HeaderOf(m), m.data)
  }

  function AsChunks(ms: seq<Msg>): seq<Chunk> {
    seq(|ms|, i requires 0 <= i < |ms| => AsChunk(ms[i]))
  }

  function Wrap(m: Msg, split: Split): seq<byte> {
    PackHeader(HeaderOf(m), split) + m.data
  }

  function WrapAll(ms: seq<Msg>, split: Split): seq<byte> {
    if ms == [] then [] else Wrap(ms[0], split) + WrapAll(ms[1..], split)
  }

  // ---------- splitting a payload

  /** A size of zero or past the end makes the rest of the payload one chunk. */
  function SplitChunks(s: seq<byte>, split: Split): seq<Chunk>
    decreases |s|
  {
    if s == [] then []
    else
      match UnpackHeader(s, split)
      case Bad(_) => []
      case Ok(h, rest) =>
        if h.size <= 0 || h.size > |rest| then
          if rest == [] then [] else [Chunk(h, rest)]
        else
          [Chunk(h, rest[..h.size])] + SplitChunks(rest[h.size..], split)
  }

  /** How many bytes the chunks take up, headers included. */
  function Span(cs: seq<Chunk>): nat {
    if cs == [] then 0 else HeaderSize(cs[0].header.vital) + |cs[0].data| + Span(cs[1..])
  }

  /** The chunk stands at the front of s: its header, and its data, as long as that says or else all the rest. */
  predicate StandsAt(c: Chunk, s: seq<byte>, last: bool, split: Split) {
    var r := UnpackHeader(s, split);
    && r.Ok? && c.header == r.value && c.data != []
    && if 0 < c.header.size <= |r.rest| then c.data == r.rest[..c.header.size] else last && c.data == r.rest
  }

  /** Nothing is left but a header without data, or less than a header. */
  predicate Leftover(s: seq<byte>, split: Split) {
    var r := UnpackHeader(s, split);
    r.Ok? ==> r.rest == []
  }

  /** The k-th chunk stands right after the ones before it. */
  predicate Placed(s: seq<byte>, cs: seq<Chunk>, k: nat, split: Split)
    requires k < |cs|
  {
    Span(cs[..k]) <= |s| && StandsAt(cs[k], s[Span(cs[..k])..], k == |cs| - 1, split)
  }

  /**
   On every payload: each chunk stands right after the one before it, only the last one may have a size of zero or
   one past the end, and no byte of data is left over.
   */
  lemma {:induction false} SplitCoversAll(s: seq<byte>, split: Split)
    ensures var cs := SplitChunks(s, split);
      && Span(cs) <= |s| && Leftover(s[Span(cs)..], split)
      && forall k :: 0 <= k < |cs| ==> Placed(s, cs, k, split)
    decreases |s|
  {
    hide StandsAt, Leftover, SplitChunks, Placed;
    var cs := SplitChunks(s, split);
    if cs == [] {
      NothingStands(s, split);
      assert s[0..] == s;
    } else {
      FirstStands(s, split);
      var n := HeaderSize(cs[0].header.vital) + |cs[0].data|;
      SplitCoversAll(s[n..], split);
      assert s[n..][Span(cs[1..])..] == s[Span(cs)..];
      FirstIsPlaced(s, cs, split);
      forall k | 0 < k < |cs| ensures Placed(s, cs, k, split) {
        NextIsPlaced(s, cs, n, k, split);
      }
    }
  }

  lemma FirstIsPlaced(s: seq<byte>, cs: seq<Chunk>, split: Split)
    requires cs != [] && StandsAt(cs[0], s, |cs| == 1, split)
    ensures Placed(s, cs, 0, split)
  {
    hide StandsAt;
    assert cs[..0] == [] && s[0..] == s;
  }

  lemma NextIsPlaced(s: seq<byte>, cs: seq<Chunk>, n: nat, k: nat, split: Split)
    requires 0 < k < |cs| && n == HeaderSize(cs[0].header.vital) + |cs[0].data| <= |s|
    requires Placed(s[n..], cs[1..], k - 1, split)
    ensures Placed(s, cs, k, split)
  {
    hide StandsAt;
    assert cs[..k][1..] == cs[1..][..k - 1] && cs[..k][0] == cs[0];
    assert s[n..][Span(cs[1..][..k - 1])..] == s[Span(cs[..k])..];
  }

  lemma NothingStands(s: seq<byte>, split: Split)
    requires SplitChunks(s, split) == []
    ensures Leftover(s, split)
  {
    hide UnpackHeader;
    if s == [] {
      NoHeader(split);
    }
  }

  lemma NoHeader(split: Split)
    ensures UnpackHeader([], split).Bad?
  {
  }

  lemma SplitSized(s: seq<byte>, split: Split)
    requires var r := UnpackHeader(s, split); r.Ok? && 0 < r.value.size <= |r.rest|
    ensures var r := UnpackHeader(s, split);
      SplitChunks(s, split) == [Chunk(r.value, r.rest[..r.value.size])] + SplitChunks(r.rest[r.value.size..], split)
  {
    hide UnpackHeader;
    NoHeader(split);
  }

  lemma SplitCut(s: seq<byte>, split: Split)
    requires var r := UnpackHeader(s, split); r.Ok? && !(0 < r.value.size <= |r.rest|)
    ensures var r := UnpackHeader(s, split);
      SplitChunks(s, split) == if r.rest == [] then [] else [Chunk(r.value, r.rest)]
  {
    hide UnpackHeader;
    NoHeader(split);
  }

  /** How much of what follows the header belongs to the chunk. */
  function Taken(h: Header, rest: seq<byte>): (d: nat)
    ensures d <= |rest|
  {
    if 0 < h.size <= |rest| then h.size else |rest|
  }

  lemma FirstTakes(s: seq<byte>, split: Split)
    requires SplitChunks(s, split) != []
    ensures UnpackHeader(s, split).Ok?
    ensures var r, cs := UnpackHeader(s, split), SplitChunks(s, split);
      var d := Taken(r.value, r.rest);
      && cs[0] == Chunk(r.value, r.rest[..d]) && d > 0 && cs[1..] == SplitChunks(r.rest[d..], split)
      && (0 < r.value.size <= |r.rest| || |cs| == 1)
  {
    var r := UnpackHeader(s, split);
    assert r.Ok?;
    hide SplitChunks, UnpackHeader;
    if 0 < r.value.size <= |r.rest| {
      SplitSized(s, split);
    } else {
      SplitCut(s, split);
      assert r.rest[|r.rest|..] == [] && r.rest[..|r.rest|] == r.rest;
      SplitNothing(split);
    }
  }

  lemma FirstStands(s: seq<byte>, split: Split)
    requires SplitChunks(s, split) != []
    ensures var cs := SplitChunks(s, split);
      var n := HeaderSize(cs[0].header.vital) + |cs[0].data|;
      n <= |s| && StandsAt(cs[0], s, |cs| == 1, split) && cs[1..] == SplitChunks(s[n..], split)
  {
    hide SplitChunks, UnpackHeader, StandsAt, Taken;
    FirstTakes(s, split);
    var r, cs := UnpackHeader(s, split), SplitChunks(s, split);
    var h, d := HeaderSize(r.value.vital), Taken(r.value, r.rest);
    TakenStands(s, |cs| == 1, split);
    assert s[h..][d..] == s[h + d..];
  }

  lemma TakenStands(s: seq<byte>, last: bool, split: Split)
    requires UnpackHeader(s, split).Ok?
    ensures var r := UnpackHeader(s, split);
      var d := Taken(r.value, r.rest);
      d > 0 && (0 < r.value.size <= |r.rest| || last) ==> StandsAt(Chunk(r.value, r.rest[..d]), s, last, split)
  {
    hide UnpackHeader;
    var r := UnpackHeader(s, split);
    assert r.rest[..|r.rest|] == r.rest;
  }

  /** The payload is not empty and its length and sequence number fit in the header. */
  predicate Sound(m: Msg, split: Split) {
    1 <= |m.data| < SizeLimit(split) && if m.vital then 0 <= m.seqNo < MAX_SEQUENCE else m.seqNo == 0
  }

  predicate AllSound(ms: seq<Msg>, split: Split) {
    forall i :: 0 <= i < |ms| ==> Sound(ms[i], split)
  }

  lemma HeaderOfWrap(m: Msg, split: Split, rest: seq<byte>)
    ensures UnpackHeader(Wrap(m, split) + rest, split) == Ok(Canonical(HeaderOf(m), split), m.data + rest)
  {
    HeaderRoundTrip(HeaderOf(m), split, m.data + rest);
    assert Wrap(m, split) + rest == PackHeader(HeaderOf(m), split) + (m.data + rest);
  }

  lemma SplitStep(m: Msg, split: Split, rest: seq<byte>)
    ensures var cs := SplitChunks(Wrap(m, split) + rest, split);
      if Sound(m, split) then cs == [AsChunk(m)] + SplitChunks(rest, split)
      else cs == [] || cs[0] != AsChunk(m)
  {
    hide Canonical;
    HeaderOfWrap(m, split, rest);
    CanonicalWhenSound(m, split);
    var s := m.data + rest;
    assert Wrap(m, split) + rest != [];
    if Sound(m, split) {
      assert s[..|m.data|] == m.data && s[|m.data|..] == rest;
    }
  }

  lemma CanonicalWhenSound(m: Msg, split: Split)
    ensures Sound(m, split) ==> Canonical(HeaderOf(m), split) == HeaderOf(m)
    ensures Canonical(HeaderOf(m), split) == HeaderOf(m) && |m.data| > 0 ==> Sound(m, split)
  {
  }

  /** Splitting inverts wrapping exactly when every message is sound. */
  lemma {:induction false} SplitRoundTrip(ms: seq<Msg>, split: Split)
    ensures SplitChunks(WrapAll(ms, split), split) == AsChunks(ms) <==> AllSound(ms, split)
  {
    hide SplitChunks, Wrap, Sound;
    if ms == [] {
      SplitNothing(split);
    } else {
      var rest := WrapAll(ms[1..], split);
      SplitStep(ms[0], split, rest);
      SplitRoundTrip(ms[1..], split);
      assert AsChunks(ms) == [AsChunk(ms[0])] + AsChunks(ms[1..]);
      assert AllSound(ms, split) <==> Sound(ms[0], split) && AllSound(ms[1..], split) by {
        if Sound(ms[0], split) && AllSound(ms[1..], split) {
          forall i | 0 <= i < |ms| ensures Sound(ms[i], split) {
            assert i > 0 ==> Sound(ms[1..][i - 1], split);
          }
        }
      }
      SameTail(AsChunk(ms[0]), SplitChunks(rest, split), AsChunks(ms[1..]));
    }
  }

  lemma SplitNothing(split: Split)
    ensures SplitChunks([], split) == []
  {
  }

  lemma SameTail(c: Chunk, a: seq<Chunk>, b: seq<Chunk>)
    ensures [c] + a == [c] + b <==> a == b
  {
    assert ([c] + a)[1..] == a && ([c] + b)[1..] == b;
  }

  method UnpackChunks(payload: seq<byte>, split: Split) returns (chunks: seq<Chunk>)
    ensures chunks == SplitChunks(payload, split)
  {
    hide UnpackHeader, SplitChunks, ReadRaw;
    ghost var all := SplitChunks(payload, split);
    chunks := [];
    assert [] + all == all;
    var u := new Unpacker(payload);
    var remaining := u.RemainingSize();
    while remaining > 0
      invariant fresh(u) && u.Valid() && remaining == |u.Rest()|
      invariant all == chunks + SplitChunks(u.Rest(), split)
      decreases remaining
    {
      SplitCases(u.Rest(), split);
      var hdr := Unpack(u, split);
      if hdr.Failure? {
        assert chunks + [] == chunks;
        return;
      }
      var left := u.RemainingSize();
      if hdr.value.size <= 0 || hdr.value.size > left {
        var data := u.TakeRest();
        if |data| > 0 {
          chunks := chunks + [Chunk(hdr.value, data)];
        }
        assert chunks + [] == chunks;
        return;
      }
      ghost var tail := SplitChunks(u.Rest()[hdr.value.size..], split);
      TakeRaw(u.Rest(), hdr.value.size);
      var data := u.NextRaw(hdr.value.size);
      assert chunks + ([Chunk(hdr.value, data.value)] + tail) == chunks + [Chunk(hdr.value, data.value)] + tail;
      chunks := chunks + [Chunk(hdr.value, data.value)];
      remaining := u.RemainingSize();
    }
    SplitNothing(split);
    assert chunks + [] == chunks;
  }

  lemma SplitCases(s: seq<byte>, split: Split)
    requires s != []
    ensures match UnpackHeader(s, split)
      case Bad(_) => SplitChunks(s, split) == []
      case Ok(h, rest) =>
        if h.size <= 0 || h.size > |rest| then SplitChunks(s, split) == if rest == [] then [] else [Chunk(h, rest)]
        else SplitChunks(s, split) == [Chunk(h, rest[..h.size])] + SplitChunks(rest[h.size..], split)
  {
  }

  lemma TakeRaw(s: seq<byte>, n: nat)
    requires n <= |s|
    ensures ReadRaw(s, n) == Ok(s[..n], s[n..])
  {
  }

  /** ChunkHeader.Unpack into a fresh header. */
  method Unpack(u: Unpacker, split: Split) returns (r: Result<Header>)
    requires u.Valid()
    modifies u
    ensures u.Valid()
    ensures var spec := UnpackHeader(old(u.Rest()), split);
      r == spec.ToResult() && (spec.Ok? ==> u.Rest() == spec.rest)
  {
    hide Or, HighBits;
    ghost var s := u.Rest();
    var raw :- u.NextRaw(2);
    var vital, resend := raw[0] / 0x40 % 2 == 1, raw[0] / 0x80 == 1;
    var size := raw[0] % 0x40 * Unit(split) + raw[1] % Unit(split);
    if !vital {
      return Success(Header(vital, resend, size, 0));
    }
    var b :- u.NextByte();
    assert s[2..][1..] == s[3..];
    r := Success(Header(vital, resend, size, UnpackSeq(raw[1], b, split)));
  }

  // ---------- the scanners, by offset

  /** The bytes from the offset on; none when the offset is past the end. */
  function From(s: seq<byte>, offset: nat): seq<byte> {
    if offset >= |s| then [] else s[offset..]
  }

  function VitalFlag(b0: byte): bool {
    b0 / 0x40 % 2 == 1
  }

  function SizeField(b0: byte, b1: byte, split: Split): nat {
    b0 % 0x40 * Unit(split) + b1 % Unit(split)
  }

  function IsVital(s: seq<byte>): bool
    requires |s| >= 2
  {
    VitalFlag(s[0])
  }

  function SizeOf(s: seq<byte>, split: Split): nat
    requires |s| >= 2
  {
    SizeField(s[0], s[1], split)
  }

  /** Header and payload length, by which a scanner moves on. */
  function Stride(s: seq<byte>, split: Split): nat
    requires |s| >= 2
  {
    HeaderSize(IsVital(s)) + SizeOf(s, split)
  }

  /** What a scanner at an offset sees of the bytes from that offset on. */
  lemma AtOffset(payload: seq<byte>, offset: nat, split: Split)
    requires offset + 2 <= |payload|
    ensures var s := From(payload, offset);
      var vital, size := VitalFlag(payload[offset]), SizeField(payload[offset], payload[offset + 1], split);
      && |s| == |payload| - offset && (forall i :: 0 <= i < |s| ==> s[i] == payload[offset + i])
      && IsVital(s) == vital && SizeOf(s, split) == size && Stride(s, split) == HeaderSize(vital) + size
      && From(s, Stride(s, split)) == From(payload, offset + HeaderSize(vital) + size)
  {
    hide VitalFlag, SizeField;
  }

  lemma ScanWrapped(m: Msg, split: Split, rest: seq<byte>)
    requires Sound(m, split)
    ensures var s := Wrap(m, split) + rest;
      && |s| >= HeaderSize(m.vital) + |m.data| >= 3
      && IsVital(s) == m.vital && SizeOf(s, split) == |m.data|
      && s[HeaderSize(m.vital)..] == m.data + rest
      && From(s, Stride(s, split)) == rest
      && (m.vital ==> UnpackSeq(s[1], s[2], split) == m.seqNo)
  {
    hide Canonical, UnpackSeq;
    HeaderOfWrap(m, split, rest);
    CanonicalWhenSound(m, split);
    var s := Wrap(m, split) + rest;
    assert s[HeaderSize(m.vital)..][|m.data|..] == rest;
  }

  // counting acknowledged vitals

  function ScanAck(s: seq<byte>, n: nat, ack: int, split: Split): int
    decreases n
  {
    if n == 0 || |s| < 2 then ack
    else ScanAck(From(s, Stride(s, split)), n - 1, AckAfter(s, ack, split), split)
  }

  /** The acknowledged number after the header at the front of s. */
  function AckAfter(s: seq<byte>, ack: int, split: Split): int
    requires |s| >= 2
  {
    if IsVital(s) && |s| >= 3 && UnpackSeq(s[1], s[2], split) == (ack + 1) % MAX_SEQUENCE
    then UnpackSeq(s[1], s[2], split) else ack
  }

  /** Accepting in order: only the next expected vital moves the acknowledged number. */
  function Accept(ack: int, vital: bool, seqNo: int): int {
    if vital && seqNo == (ack + 1) % MAX_SEQUENCE then seqNo else ack
  }

  function AckFold(cs: seq<Chunk>, n: nat, ack: int): int {
    if n == 0 || cs == [] then ack
    else AckFold(cs[1..], n - 1, Accept(ack, cs[0].header.vital, cs[0].header.seqNo))
  }

  /** On well-formed payloads the raw scan agrees with an in-order fold over the chunks. */
  lemma {:induction false} ScanAckIsFold(ms: seq<Msg>, n: nat, ack: int, split: Split)
    requires AllSound(ms, split)
    ensures ScanAck(WrapAll(ms, split), n, ack, split) == AckFold(AsChunks(ms), n, ack)
    decreases n
  {
    hide Wrap, UnpackSeq;
    if ms != [] && n > 0 {
      ScanWrapped(ms[0], split, WrapAll(ms[1..], split));
      ScanAckIsFold(ms[1..], n - 1, Accept(ack, ms[0].vital, ms[0].seqNo), split);
      assert AsChunks(ms)[1..] == AsChunks(ms[1..]);
    }
  }

  method CountVitalChunks(payload: seq<byte>, numChunks: int, currentAck: int, split: Split) returns (ack: int)
    ensures ack == ScanAck(payload, if numChunks < 0 then 0 else numChunks, currentAck, split)
  {
    hide UnpackSeq, SizeField, VitalFlag, IsVital, SizeOf, Stride, From, ScanAck, AckAfter;
    FromStart(payload);
    ack := currentAck;
    var offset: nat, i := 0, 0;
    ghost var n: nat := if numChunks < 0 then 0 else numChunks;
    while i < numChunks && offset < |payload|
      invariant 0 <= i <= n
      invariant ScanAck(payload, n, currentAck, split) == ScanAck(From(payload, offset), n - i, ack, split)
      decreases numChunks - i
    {
      ScanStep(From(payload, offset), n - i, ack, split);
      FromLength(payload, offset);
      if offset + 2 > |payload| {
        return;
      }
      AtOffset(payload, offset, split);
      AckAtOffset(payload, offset, ack, split);
      var vital := VitalFlag(payload[offset]);
      var size := SizeField(payload[offset], payload[offset + 1], split);
      if vital && offset + 3 <= |payload| {
        var seqNo := UnpackSeq(payload[offset + 1], payload[offset + 2], split);
        if seqNo == (ack + 1) % MAX_SEQUENCE {
          ack := seqNo;
        }
      }
      offset, i := offset + HeaderSize(vital) + size, i + 1;
    }
    ScanStep(From(payload, offset), n - i, ack, split);
    FromLength(payload, offset);
  }

  lemma FromStart(payload: seq<byte>)
    ensures From(payload, 0) == payload
  {
  }

  lemma FromLength(payload: seq<byte>, offset: nat)
    ensures |From(payload, offset)| == if offset <= |payload| then |payload| - offset else 0
  {
  }

  lemma ScanStep(s: seq<byte>, n: nat, ack: int, split: Split)
    ensures n == 0 || |s| < 2 ==> ScanAck(s, n, ack, split) == ack
    ensures n > 0 && |s| >= 2 ==>
      ScanAck(s, n, ack, split) == ScanAck(From(s, Stride(s, split)), n - 1, AckAfter(s, ack, split), split)
  {
  }

  lemma AckAtOffset(payload: seq<byte>, offset: nat, ack: int, split: Split)
    requires offset + 2 <= |payload| && |From(payload, offset)| >= 2
    ensures AckAfter(From(payload, offset), ack, split)
      == if VitalFlag(payload[offset]) && offset + 3 <= |payload|
            && UnpackSeq(payload[offset + 1], payload[offset + 2], split) == (ack + 1) % MAX_SEQUENCE
         then UnpackSeq(payload[offset + 1], payload[offset + 2], split) else ack
  {
    hide UnpackSeq, VitalFlag;
    AtOffset(payload, offset, split);
  }

  // looking for a message by the first byte of its id

  /** The id of a one-byte varint: six bits, complemented under the sign bit. */
  function FirstByteId(b: byte): int {
    var six: int := b % 0x40;
    if b / 0x40 % 2 == 1 then -1 - six else six
  }

  predicate Matches(raw: int, target: int, wantSystem: bool) {
    (raw % 2 == 1) == wantSystem && raw / 2 == target
  }

  /** A byte with the sign bit is no message's. */
  lemma SignedMatchesNothing(b: byte, target: nat, wantSystem: bool)
    requires b / 0x40 % 2 == 1
    ensures !Matches(FirstByteId(b), target, wantSystem)
  {
  }

  predicate ScanContains(s: seq<byte>, target: int, wantSystem: bool, split: Split)
    decreases |s|
  {
    |s| >= 2 && HeaderSize(IsVital(s)) < |s| &&
    (Matches(FirstByteId(s[HeaderSize(IsVital(s))]), target, wantSystem)
     || ScanContains(From(s, Stride(s, split)), target, wantSystem, split))
  }

  lemma {:induction false} ScanContainsIsSearch(ms: seq<Msg>, target: int, wantSystem: bool, split: Split)
    requires AllSound(ms, split)
    ensures ScanContains(WrapAll(ms, split), target, wantSystem, split)
      <==> exists i :: 0 <= i < |ms| && Matches(FirstByteId(ms[i].data[0]), target, wantSystem)
  {
    hide Wrap, FirstByteId, Matches;
    if ms != [] {
      var s := WrapAll(ms, split);
      ScanWrapped(ms[0], split, WrapAll(ms[1..], split));
      assert s[HeaderSize(IsVital(s))] == s[HeaderSize(ms[0].vital)..][0] == ms[0].data[0];
      ScanContainsIsSearch(ms[1..], target, wantSystem, split);
      if ScanContains(WrapAll(ms[1..], split), target, wantSystem, split) {
        var i :| 0 <= i < |ms[1..]| && Matches(FirstByteId(ms[1..][i].data[0]), target, wantSystem);
        assert ms[1..][i] == ms[i + 1];
      }
      if i :| 0 <= i < |ms| && Matches(FirstByteId(ms[i].data[0]), target, wantSystem) {
        assert i > 0 ==> ms[i] == ms[1..][i - 1];
      }
    }
  }

  /** A message body behind its packed id, with the system flag in the id's last bit. */
  function PackMsg(id: nat, system: bool, body: seq<byte>): seq<byte> {
    Varint.PackInt(2 * id + if system then 1 else 0) + body
  }

  lemma FirstByteOfPack(v: nat, body: seq<byte>)
    requires v <= MAX_INT32
    ensures FirstByteId((Varint.PackInt(v) + body)[0]) == v % 0x40
  {
    hide Varint.EncodeTail;
    assert Varint.PackInt(v) == Varint.EncodeMagnitude(0, v);
  }

  /**
   The first byte knows an id only modulo 32: a scan for an id below 32 finds a message exactly when the
   flag is right and the ids agree modulo 32, so it agrees with the real id as long as ids stay below 32.
   */
  lemma OneByteIds(id: nat, system: bool, body: seq<byte>, target: nat, wantSystem: bool)
    requires 2 * id + 1 <= MAX_INT32 && target < 32
    ensures Matches(FirstByteId(PackMsg(id, system, body)[0]), target, wantSystem)
      <==> system == wantSystem && id % 32 == target
  {
    hide FirstByteId, Varint.PackInt;
    var flag := if system then 1 else 0;
    FirstByteOfPack(2 * id + flag, body);
    IdBits(id, flag);
  }

  /** A scan for message 0 finds message 32. */
  lemma OneByteExample(split: Split)
    ensures ScanContains(WrapAll([Msg(false, false, 0, PackMsg(32, true, []))], split), 0, true, split)
  {
    hide ScanContains, FirstByteId, Matches, WrapAll;
    var ms := [Msg(false, false, 0, PackMsg(32, true, []))];
    OneByteIds(32, true, [], 0, true);
    assert |PackMsg(32, true, [])| < 64 by {
      assert Varint.PackInt(65) == [0x81, 0x01];
    }
    assert Matches(FirstByteId(ms[0].data[0]), 0, true);
    ScanContainsIsSearch(ms, 0, true, split);
  }

  lemma IdBits(id: nat, flag: nat)
    requires flag <= 1
    ensures (2 * id + flag) % 0x40 % 2 == flag && (2 * id + flag) % 0x40 / 2 == id % 32
  {
    var k := id / 32;
    assert 2 * id + flag == 0x40 * k + (2 * (id % 32) + flag);
  }

  method ContainsMsg(payload: seq<byte>, target: int, wantSystem: bool, split: Split) returns (found: bool)
    ensures found == ScanContains(payload, target, wantSystem, split)
  {
    hide SizeField, VitalFlag, IsVital, SizeOf, Stride, FirstByteId, Matches;
    assert From(payload, 0) == payload;
    var offset := 0;
    while offset < |payload|
      invariant ScanContains(payload, target, wantSystem, split)
        == ScanContains(From(payload, offset), target, wantSystem, split)
      decreases |payload| - offset
    {
      if offset + 2 > |payload| {
        return false;
      }
      AtOffset(payload, offset, split);
      var vital := VitalFlag(payload[offset]);
      var size := SizeField(payload[offset], payload[offset + 1], split);
      var dataStart := offset + HeaderSize(vital);
      if dataStart >= |payload| {
        return false;
      }
      if Matches(FirstByteId(payload[dataStart]), target, wantSystem) {
        return true;
      }
      offset := dataStart + size;
    }
    found := false;
  }

  // extracting system messages by their full id

  function SystemBody(data: seq<byte>, target: int): Option<seq<byte>> {
    match Varint.Decode(data)
    case Ok(raw, rest) => if Matches(raw, target, true) then Some(rest) else None
    case Bad(_) => None
  }

  /** The payload the header announces, when all of it is there and it is not empty. */
  function Body(s: seq<byte>, split: Split): Option<seq<byte>>
    requires |s| >= 2
  {
    if Stride(s, split) <= |s| && SizeOf(s, split) > 0 then Some(s[HeaderSize(IsVital(s))..Stride(s, split)]) else None
  }

  function Found(s: seq<byte>, target: int, split: Split): Option<seq<byte>>
    requires |s| >= 2
  {
    match Body(s, split)
    case Some(data) => SystemBody(data, target)
    case None => None
  }

  function ScanExtract(s: seq<byte>, target: int, split: Split): Option<seq<byte>>
    decreases |s|
  {
    if |s| < 2 then None
    else if Found(s, target, split).Some? then Found(s, target, split)
    else ScanExtract(From(s, Stride(s, split)), target, split)
  }

  function NonEmpty(body: Option<seq<byte>>): seq<seq<byte>> {
    if body.Some? && body.value != [] then [body.value] else []
  }

  function ScanExtractAll(s: seq<byte>, target: int, split: Split): seq<seq<byte>>
    decreases |s|
  {
    if |s| < 2 then []
    else NonEmpty(Found(s, target, split)) + ScanExtractAll(From(s, Stride(s, split)), target, split)
  }

  function FirstBody(cs: seq<Chunk>, target: int): Option<seq<byte>> {
    if cs == [] then None
    else if SystemBody(cs[0].data, target).Some? then SystemBody(cs[0].data, target)
    else FirstBody(cs[1..], target)
  }

  function AllBodies(cs: seq<Chunk>, target: int): seq<seq<byte>> {
    if cs == [] then [] else NonEmpty(SystemBody(cs[0].data, target)) + AllBodies(cs[1..], target)
  }

  /** On well-formed payloads extraction is a search of the chunk list by the full id. */
  lemma {:induction false} ScanExtractIsSearch(ms: seq<Msg>, target: int, split: Split)
    requires AllSound(ms, split)
    ensures ScanExtract(WrapAll(ms, split), target, split) == FirstBody(AsChunks(ms), target)
    ensures ScanExtractAll(WrapAll(ms, split), target, split) == AllBodies(AsChunks(ms), target)
  {
    hide Wrap, SystemBody, IsVital, SizeOf, NonEmpty;
    if ms != [] {
      var s := WrapAll(ms, split);
      var m := ms[0];
      ScanWrapped(m, split, WrapAll(ms[1..], split));
      assert s[HeaderSize(m.vital)..][..|m.data|] == m.data;
      assert s[HeaderSize(m.vital)..HeaderSize(m.vital) + |m.data|] == s[HeaderSize(m.vital)..][..|m.data|];
      ScanExtractIsSearch(ms[1..], target, split);
      assert AsChunks(ms)[1..] == AsChunks(ms[1..]);
    }
  }

  /** Extraction goes by the whole id and the system flag. */
  lemma BodyOfPack(id: nat, system: bool, body: seq<byte>, target: int)
    requires 2 * id + 1 <= MAX_INT32
    ensures SystemBody(PackMsg(id, system, body), target) == if system && id == target then Some(body) else None
  {
    hide Varint.PackInt, Varint.Decode;
    Varint.DecodeOfPack(2 * id + if system then 1 else 0, body);
  }

  lemma BodiesFrom(m: Msg, ms: seq<Msg>, target: int)
    ensures var body := SystemBody(m.data, target);
      && FirstBody(AsChunks([m] + ms), target) == (if body.Some? then body else FirstBody(AsChunks(ms), target))
      && AllBodies(AsChunks([m] + ms), target) == NonEmpty(body) + AllBodies(AsChunks(ms), target)
  {
    hide SystemBody, NonEmpty;
    assert AsChunks([m] + ms) == [AsChunk(m)] + AsChunks(ms);
  }

  /** The first message with the id counts even without a body; among all of them only those with a body do. */
  lemma ExtractionExample(a: byte)
    ensures var empty := Msg(false, false, 0, PackMsg(35, true, []));
      var full := Msg(false, false, 0, PackMsg(35, true, [a]));
      var game, other := Msg(false, false, 0, PackMsg(35, false, [a])), Msg(false, false, 0, PackMsg(3, true, [a]));
      && FirstBody(AsChunks([game] + ([other] + ([empty] + ([full] + [])))), 35) == Some([])
      && AllBodies(AsChunks([game] + ([other] + ([empty] + ([full] + [])))), 35) == [[a]]
  {
    hide SystemBody, PackMsg, FirstBody, AllBodies, AsChunks;
    BodyOfPack(35, true, [], 35);
    BodyOfPack(35, true, [a], 35);
    BodyOfPack(35, false, [a], 35);
    BodyOfPack(3, true, [a], 35);
    var empty, full := Msg(false, false, 0, PackMsg(35, true, [])), Msg(false, false, 0, PackMsg(35, true, [a]));
    var game, other := Msg(false, false, 0, PackMsg(35, false, [a])), Msg(false, false, 0, PackMsg(3, true, [a]));
    BodiesFrom(game, [other] + ([empty] + ([full] + [])), 35);
    BodiesFrom(other, [empty] + ([full] + []), 35);
    BodiesFrom(empty, [full] + [], 35);
    BodiesFrom(full, [], 35);
    NoBodies(35);
  }

  lemma NoBodies(target: int)
    ensures AllBodies(AsChunks([]), target) == []
  {
  }

  /** One step of both extraction loops: what the chunk at the offset holds, and where the next one starts. */
  method Inspect(payload: seq<byte>, offset: nat, target: int, split: Split) returns (body: Option<seq<byte>>, next: nat)
    requires offset + 2 <= |payload|
    ensures next > offset && body == Found(From(payload, offset), target, split)
    ensures From(payload, next) == From(From(payload, offset), Stride(From(payload, offset), split))
  {
    hide SizeField, VitalFlag, Matches, Varint.Decode;
    ghost var s := From(payload, offset);
    AtOffset(payload, offset, split);
    var vital := VitalFlag(payload[offset]);
    var size := SizeField(payload[offset], payload[offset + 1], split);
    var dataStart := offset + HeaderSize(vital);
    var dataEnd := dataStart + size;
    body := None;
    if dataStart < |payload| && dataEnd <= |payload| && size > 0 {
      assert payload[dataStart..dataEnd] == s[HeaderSize(vital)..HeaderSize(vital) + size];
      var u := new Unpacker(payload[dataStart..dataEnd]);
      var msgRaw := u.NextInt();
      if msgRaw.Success? && Matches(msgRaw.value, target, true) {
        var rest := u.TakeRest();
        body := Some(rest);
      }
    }
    next := dataEnd;
  }

  method ExtractSysMsgPayload(payload: seq<byte>, target: int, split: Split) returns (body: Option<seq<byte>>)
    ensures body == ScanExtract(payload, target, split)
  {
    hide Found;
    var offset := 0;
    while offset < |payload|
      invariant ScanExtract(payload, target, split) == ScanExtract(From(payload, offset), target, split)
      decreases |payload| - offset
    {
      if offset + 2 > |payload| {
        return None;
      }
      body, offset := Inspect(payload, offset, target, split);
      if body.Some? {
        return;
      }
    }
    body := None;
  }

  method ExtractAllSysMsgPayloads(payload: seq<byte>, target: int, split: Split) returns (out: seq<seq<byte>>)
    ensures out == ScanExtractAll(payload, target, split)
  {
    hide Found;
    out := [];
    var offset := 0;
    while offset < |payload|
      invariant ScanExtractAll(payload, target, split) == out + ScanExtractAll(From(payload, offset), target, split)
      decreases |payload| - offset
    {
      if offset + 2 > |payload| {
        return;
      }
      var body, next := Inspect(payload, offset, target, split);
      ghost var tail := ScanExtractAll(From(payload, next), target, split);
      assert out + (NonEmpty(body) + tail) == out + NonEmpty(body) + tail;
      out, offset := out + NonEmpty(body), next;
    }
  }
}
