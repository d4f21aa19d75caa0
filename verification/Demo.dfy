/**
 The chunk stream of a demo. Tick markers are stored absolutely or as a small increase over the
 previous marker, so reader and writer both carry the previous tick along.
 */
module Demo {
  import opened Wire
  import opened Huffman

  datatype Chunk = TickMarker(tick: int, keyframe: bool) | DataChunk(typ: int, data: seq<byte>)

  const VERSION_TICK_COMPRESSION := 5
  const MAX_DELTA := 0x1F

  /** The tick that the next compressed marker counts from. */
  function NextTick(ch: Chunk, prev: int): int {
    if ch.TickMarker? then ch.tick else prev
  }

  // ---------- writing

  predicate Absolute(tick: int, keyframe: bool, prev: int) {
    prev == -1 || tick - prev > MAX_DELTA || keyframe
  }

  function BigEndian(v: int): (s: seq<byte>)
    ensures |s| == 4
  {
    [v / 0x100 / 0x100 / 0x100 % 0x100, v / 0x100 / 0x100 % 0x100, v / 0x100 % 0x100, v % 0x100]
  }

  /** byte(0xA0 | delta); a negative delta sets the keyframe bit when bit 6 of its two's complement is set. */
  function CompressedHead(delta: int): byte {
    0xA0 + delta / 0x40 % 2 * 0x40 + delta % 0x20
  }

  function EncodeMarker(tick: int, keyframe: bool, prev: int): seq<byte> {
    if Absolute(tick, keyframe, prev) then [if keyframe then 0xC0 else 0x80] + BigEndian(tick)
    else [CompressedHead(tick - prev)]
  }

  function SizeHead(typ: int, size: nat): seq<byte> {
    var head: byte := typ % 4 * 0x20;
    if size < 30 then [head + size]
    else if size < 0x100 then [head + 30, size]
    else [head + 31, size % 0x100, size / 0x100 % 0x100]
  }

  function EncodeChunk(h: Codec, ch: Chunk, prev: int): seq<byte> {
    match ch
    case TickMarker(tick, keyframe) => EncodeMarker(tick, keyframe, prev)
    case DataChunk(typ, data) => SizeHead(typ, |h.compress(data)|) + h.compress(data)
  }

  function EncodeAll(h: Codec, cs: seq<Chunk>, prev: int): seq<byte> {
    if cs == [] then []
    else EncodeChunk(h, cs[0], prev) + EncodeAll(h, cs[1..], NextTick(cs[0], prev))
  }

  // ---------- reading

  datatype MarkerForm = Increase(delta: nat) | FourBytes

  function TickDelta(b: byte, version: int): MarkerForm {
    if version < VERSION_TICK_COMPRESSION && b % 0x40 != 0 then Increase(b % 0x40)
    else if b / 0x20 % 2 == 1 then Increase(b % 0x20)
    else FourBytes
  }

  function FromBigEndian(s: seq<byte>): int
    requires |s| == 4
  {
    ToInt32(((s[0] as int * 0x100 + s[1]) * 0x100 + s[2]) * 0x100 + s[3])
  }

  function Take(s: seq<byte>, n: nat): Parsed<seq<byte>> {
    if n > |s| then Bad(Short) else Ok(s[..n], s[n..])
  }

  function DecodeMarker(b: byte, version: int, prev: int, s: seq<byte>): Parsed<Chunk> {
    var keyframe := b / 0x40 % 2 == 1;
    match TickDelta(b, version)
    case FourBytes =>
      var (raw, rest) :- Take(s, 4);
      Ok(TickMarker(FromBigEndian(raw), keyframe), rest)
    case Increase(delta) =>
      if prev < 0 then Bad(BadChunk) else Ok(TickMarker(prev + delta, keyframe), s)
  }

  /** The payload size: in the head itself, in one more byte, or in two. */
  function PayloadSize(b: byte, s: seq<byte>): Parsed<nat> {
    if b % 0x20 == 30 then
      var (n, rest) :- Take(s, 1);
      Ok(n[0], rest)
    else if b % 0x20 == 31 then
      var (n, rest) :- Take(s, 2);
      Ok(n[1] as int * 0x100 + n[0], rest)
    else
      Ok(b % 0x20, s)
  }

  function DecodeData(h: Codec, b: byte, s: seq<byte>): Parsed<Chunk> {
    var (size, s') :- PayloadSize(b, s);
    var (payload, rest) :- Take(s', size);
    match h.decompress(payload)
    case Failure(e) => Bad(e)
    case Success(data) => Ok(DataChunk(b / 0x20 % 4, data), rest)
  }

  /** Reads the chunk whose first byte is b. */
  function DecodeAfter(h: Codec, version: int, prev: int, b: byte, s: seq<byte>): (r: Parsed<Chunk>)
    ensures r.Ok? ==> |r.rest| <= |s|
  {
    if b >= 0x80 then DecodeMarker(b, version, prev, s) else DecodeData(h, b, s)
  }

  function DecodeAll(h: Codec, version: int, prev: int, s: seq<byte>): Result<seq<Chunk>>
    decreases |s|
  {
    if s == [] then Success([])
    else
      match DecodeAfter(h, version, prev, s[0], s[1..])
      case Bad(e) => Failure(e)
      case Ok(ch, rest) =>
        var cs :- DecodeAll(h, version, NextTick(ch, prev), rest);
        Success([ch] + cs)
  }

  // ---------- what survives

  /**
   The condition under which the writer's choice of form suits the reader: an absolute tick fits in 32
   bits; a compressed one counts up from a non-negative tick and the reader knows the compressed form.
   */
  predicate WellFormed(ch: Chunk, version: int, prev: int) {
    match ch
    case TickMarker(tick, keyframe) =>
      if Absolute(tick, keyframe, prev) then IsInt32(tick)
      else version >= VERSION_TICK_COMPRESSION && 0 <= prev <= tick
    case DataChunk(typ, _) => 0 <= typ < 4
  }

  predicate WellFormedStream(cs: seq<Chunk>, version: int, prev: int) {
    cs != [] ==> WellFormed(cs[0], version, prev) && WellFormedStream(cs[1..], version, NextTick(cs[0], prev))
  }

  /** The size field has sixteen bits; the writer drops whatever is above them. */
  predicate Fits(h: Codec, ch: Chunk) {
    ch.DataChunk? ==> |h.compress(ch.data)| < 0x1_0000
  }

  predicate AllFit(h: Codec, cs: seq<Chunk>) {
    forall i :: 0 <= i < |cs| ==> Fits(h, cs[i])
  }

  /** The reader finds every chunk, and goes on exactly where the writer wrote the next one. */
  predicate InStep(h: Codec, cs: seq<Chunk>, version: int, prev: int) {
    cs != [] ==>
      var rest := EncodeAll(h, cs[1..], NextTick(cs[0], prev));
      var s := EncodeChunk(h, cs[0], prev) + rest;
      && s != []
      && DecodeAfter(h, version, prev, s[0], s[1..]) == Ok(cs[0], rest)
      && InStep(h, cs[1..], version, NextTick(cs[0], prev))
  }

  lemma Digits(v: int)
    ensures var v1 := v / 0x100;
      var v2 := v1 / 0x100;
      var v3 := v2 / 0x100;
      v == ((v3 % 0x100 * 0x100 + v2 % 0x100) * 0x100 + v1 % 0x100) * 0x100 + v % 0x100 + v3 / 0x100 * 0x1_0000_0000
  {
  }

  lemma SameLowBits(low: int, q: int)
    ensures ToInt32(low + q * 0x1_0000_0000) == ToInt32(low)
  {
  }

  lemma BigEndianInverse(v: int)
    ensures FromBigEndian(BigEndian(v)) == ToInt32(v)
  {
    hide ToInt32;
    var s := BigEndian(v);
    Digits(v);
    SameLowBits(((s[0] as int * 0x100 + s[1]) * 0x100 + s[2]) * 0x100 + s[3], v / 0x100 / 0x100 / 0x100 / 0x100);
  }

  lemma CompressedHeadBits(delta: int)
    ensures var b := CompressedHead(delta);
      b % 0x20 == delta % 0x20 && b / 0x20 % 2 == 1 && b / 0x40 % 2 == delta / 0x40 % 2
      && b % 0x40 == 0x20 + delta % 0x20 && b >= 0xA0
  {
    var low, high := delta % 0x20, delta / 0x40 % 2;
    if high == 0 {
      assert CompressedHead(delta) == 0xA0 + low;
    } else {
      assert CompressedHead(delta) == 0xE0 + low;
    }
  }

  lemma AbsoluteRoundTrip(tick: int, keyframe: bool, version: int, prev: int, rest: seq<byte>)
    requires Absolute(tick, keyframe, prev)
    ensures var s := EncodeMarker(tick, keyframe, prev) + rest;
      s[0] >= 0x80 && DecodeMarker(s[0], version, prev, s[1..]) == Ok(TickMarker(ToInt32(tick), keyframe), rest)
  {
    hide BigEndian, FromBigEndian, ToInt32;
    var s := EncodeMarker(tick, keyframe, prev) + rest;
    BigEndianInverse(tick);
    assert s[1..] == BigEndian(tick) + rest;
    assert s[1..][..4] == BigEndian(tick) && s[1..][4..] == rest;
  }

  lemma CompressedRoundTrip(tick: int, keyframe: bool, version: int, prev: int, rest: seq<byte>)
    requires !Absolute(tick, keyframe, prev)
    ensures var s := EncodeMarker(tick, keyframe, prev) + rest;
      var r := DecodeMarker(s[0], version, prev, s[1..]);
      s[0] >= 0x80 &&
      if WellFormed(TickMarker(tick, keyframe), version, prev) then r == Ok(TickMarker(tick, keyframe), rest)
      else r.Ok? ==> r.value.tick != tick
  {
    hide CompressedHead;
    var s := EncodeMarker(tick, keyframe, prev) + rest;
    CompressedHeadBits(tick - prev);
    assert s[0] == CompressedHead(tick - prev) && s[1..] == rest;
  }

  lemma MarkerRoundTrip(h: Codec, tick: int, keyframe: bool, version: int, prev: int, rest: seq<byte>)
    ensures var ch, s := TickMarker(tick, keyframe), EncodeMarker(tick, keyframe, prev) + rest;
      var r := DecodeAfter(h, version, prev, s[0], s[1..]);
      if WellFormed(ch, version, prev) then r == Ok(ch, rest) else r.Ok? ==> r.value != ch
  {
    hide EncodeMarker, DecodeMarker, ToInt32;
    if Absolute(tick, keyframe, prev) {
      AbsoluteRoundTrip(tick, keyframe, version, prev, rest);
      if IsInt32(tick) {
        ToInt32Identity(tick);
      }
    } else {
      CompressedRoundTrip(tick, keyframe, version, prev, rest);
    }
  }

  lemma LowSixteen(size: nat)
    ensures size / 0x100 % 0x100 * 0x100 + size % 0x100 == size % 0x1_0000
  {
  }

  lemma SizeHeadBits(typ: int, size: nat, rest: seq<byte>)
    ensures var s := SizeHead(typ, size) + rest;
      s[0] < 0x80 && s[0] / 0x20 % 4 == typ % 4 && PayloadSize(s[0], s[1..]) == Ok(size % 0x1_0000, rest)
  {
    var s := SizeHead(typ, size) + rest;
    if size < 30 {
      assert s[1..] == rest;
    } else if size < 0x100 {
      assert s[1..][..1] == [size] && s[1..][1..] == rest;
    } else {
      assert s[1..][..2] == [size % 0x100, size / 0x100 % 0x100] && s[1..][2..] == rest;
      LowSixteen(size);
    }
  }

  /**
   What the reader makes of a data chunk: the payload cut to the low sixteen bits of its size. It finds the
   chunk and goes on behind it exactly when the type is known and the compressed size fits.
   */
  lemma DataRoundTrip(h: Codec, typ: int, data: seq<byte>, version: int, prev: int, rest: seq<byte>)
    requires h.Lossless()
    ensures var ch, payload := DataChunk(typ, data), h.compress(data);
      var s, size := EncodeChunk(h, ch, prev) + rest, |payload| % 0x1_0000;
      var r := DecodeAfter(h, version, prev, s[0], s[1..]);
      && (match h.decompress(payload[..size])
          case Failure(e) => r == Bad(e)
          case Success(d) => r == Ok(DataChunk(typ % 4, d), payload[size..] + rest))
      && (r == Ok(ch, rest) <==> 0 <= typ < 4 && |payload| < 0x1_0000)
  {
    hide SizeHead, PayloadSize;
    var payload := h.compress(data);
    var size := |payload| % 0x1_0000;
    SizeHeadBits(typ, |payload|, payload + rest);
    assert EncodeChunk(h, DataChunk(typ, data), prev) + rest == SizeHead(typ, |payload|) + (payload + rest);
    assert (payload + rest)[..size] == payload[..size] && (payload + rest)[size..] == payload[size..] + rest;
    if |payload| < 0x1_0000 {
      assert payload[..size] == payload && payload[size..] + rest == rest;
    } else {
      assert |payload[size..] + rest| > |rest|;
    }
  }

  /** The same for any chunk; with a codec that codes the end of its data, the chunk is not even mistaken. */
  lemma ChunkRoundTrip(h: Codec, ch: Chunk, version: int, prev: int, rest: seq<byte>)
    requires h.Lossless()
    ensures EncodeChunk(h, ch, prev) != []
    ensures var s := EncodeChunk(h, ch, prev) + rest;
      var r := DecodeAfter(h, version, prev, s[0], s[1..]);
      && (r == Ok(ch, rest) <==> WellFormed(ch, version, prev) && Fits(h, ch))
      && (Fits(h, ch) || h.Terminated() ==> r.Ok? && r.value == ch ==> r.rest == rest)
  {
    hide DecodeAfter;
    match ch {
      case TickMarker(tick, keyframe) => MarkerRoundTrip(h, tick, keyframe, version, prev, rest);
      case DataChunk(typ, data) =>
        DataRoundTrip(h, typ, data, version, prev, rest);
        var payload := h.compress(data);
        if |payload| < 0x1_0000 {
          assert payload[|payload|..] + rest == rest;
        }
    }
  }

  /**
   For every file version and every lossless codec: reader and writer stay in step over a whole chunk list
   exactly when every chunk is well formed where it stands and its compressed size fits into sixteen bits.
   */
  lemma {:induction false} InStepIff(h: Codec, cs: seq<Chunk>, version: int, prev: int)
    requires h.Lossless()
    ensures InStep(h, cs, version, prev) <==> WellFormedStream(cs, version, prev) && AllFit(h, cs)
    decreases |cs|
  {
    hide DecodeAfter, EncodeChunk, WellFormed, Fits;
    if cs != [] {
      ChunkRoundTrip(h, cs[0], version, prev, EncodeAll(h, cs[1..], NextTick(cs[0], prev)));
      InStepIff(h, cs[1..], version, NextTick(cs[0], prev));
      assert AllFit(h, cs) <==> Fits(h, cs[0]) && AllFit(h, cs[1..]) by {
        assert cs == [cs[0]] + cs[1..];
      }
    }
  }

  /**
   What survives writing and reading: among the lists whose chunks fit, the well-formed ones; and with a codec
   that codes the end of its data, exactly the well-formed lists whose chunks fit.
   */
  lemma {:induction false} StreamRoundTrip(h: Codec, cs: seq<Chunk>, version: int, prev: int)
    requires h.Lossless()
    ensures var survives := DecodeAll(h, version, prev, EncodeAll(h, cs, prev)) == Success(cs);
      && (AllFit(h, cs) ==> (survives <==> WellFormedStream(cs, version, prev)))
      && (h.Terminated() ==> (survives <==> WellFormedStream(cs, version, prev) && AllFit(h, cs)))
    decreases |cs|
  {
    hide DecodeAfter, EncodeChunk, WellFormed, Fits, Codec.Terminated;
    if cs != [] {
      var rest := EncodeAll(h, cs[1..], NextTick(cs[0], prev));
      ChunkRoundTrip(h, cs[0], version, prev, rest);
      StreamRoundTrip(h, cs[1..], version, NextTick(cs[0], prev));
      assert AllFit(h, cs) <==> Fits(h, cs[0]) && AllFit(h, cs[1..]) by {
        assert cs == [cs[0]] + cs[1..];
      }
      DecodeHead(h, version, prev, EncodeChunk(h, cs[0], prev) + rest, cs);
    }
  }

  /** A non-empty list is read exactly when its first chunk is, and the rest after it. */
  lemma DecodeHead(h: Codec, version: int, prev: int, s: seq<byte>, cs: seq<Chunk>)
    requires s != [] && cs != []
    ensures DecodeAll(h, version, prev, s) == Success(cs) <==>
      var r := DecodeAfter(h, version, prev, s[0], s[1..]);
      r.Ok? && r.value == cs[0] && DecodeAll(h, version, NextTick(cs[0], prev), r.rest) == Success(cs[1..])
  {
    hide DecodeAfter;
    var r := DecodeAfter(h, version, prev, s[0], s[1..]);
    if r.Ok? && DecodeAll(h, version, NextTick(r.value, prev), r.rest).Success? {
      var tail := DecodeAll(h, version, NextTick(r.value, prev), r.rest).value;
      assert ([r.value] + tail)[1..] == tail && [cs[0]] + cs[1..] == cs;
    }
  }

  /** A single chunk of too large a compressed size never survives, whatever the codec. */
  lemma OversizedChunkFails(h: Codec, typ: int, data: seq<byte>, version: int, prev: int)
    requires h.Lossless() && |h.compress(data)| >= 0x1_0000
    ensures var cs := [DataChunk(typ, data)];
      DecodeAll(h, version, prev, EncodeAll(h, cs, prev)) != Success(cs)
  {
    hide DecodeAfter, EncodeChunk;
    var cs := [DataChunk(typ, data)];
    ChunkRoundTrip(h, cs[0], version, prev, []);
    DataRoundTrip(h, typ, data, version, prev, []);
    var s := EncodeChunk(h, cs[0], prev) + [];
    assert EncodeAll(h, cs, prev) == s;
    DecodeHead(h, version, prev, s, cs);
  }

  /** Such as 65536 bytes that a codec leaves as they are: their size is written as 0. */
  lemma OversizedExample()
    ensures var h := Codec(x => x, x => Success(x));
      var cs := [DataChunk(0, seq(0x1_0000, _ => 0 as byte))];
      h.Lossless() && DecodeAll(h, 6, -1, EncodeAll(h, cs, -1)) != Success(cs)
  {
    hide DecodeAll, EncodeAll;
    OversizedChunkFails(Codec(x => x, x => Success(x)), 0, seq(0x1_0000, _ => 0 as byte), 6, -1);
  }

  /** The usual recording: data of a known type, and ticks that start at or above zero and never decrease. */
  predicate Recorded(cs: seq<Chunk>, prev: int) {
    cs != [] ==>
      && (cs[0].TickMarker? ==> prev <= cs[0].tick && 0 <= cs[0].tick <= MAX_INT32)
      && (cs[0].DataChunk? ==> 0 <= cs[0].typ < 4)
      && Recorded(cs[1..], NextTick(cs[0], prev))
  }

  lemma {:induction false} RecordedSurvives(cs: seq<Chunk>, version: int, prev: int)
    requires version >= VERSION_TICK_COMPRESSION && prev >= -1 && Recorded(cs, prev)
    ensures WellFormedStream(cs, version, prev)
  {
    if cs != [] {
      RecordedSurvives(cs[1..], version, NextTick(cs[0], prev));
    }
  }

  /** A file of an older version does not survive: its second marker comes back 32 ticks late. */
  lemma LegacyVersionFails(h: Codec)
    requires h.Lossless()
    ensures var cs := [TickMarker(0, false), TickMarker(1, false)];
      DecodeAll(h, 4, -1, EncodeAll(h, cs, -1)) != Success(cs)
  {
    var cs := [TickMarker(0, false), TickMarker(1, false)];
    assert cs[1..] == [TickMarker(1, false)];
    assert !WellFormedStream(cs[1..], 4, 0);
    assert AllFit(h, cs);
    StreamRoundTrip(h, cs, 4, -1);
  }
}
