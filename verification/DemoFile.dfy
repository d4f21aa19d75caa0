/** The demo reader and writer: in memory over a cursor, and incrementally over a stream. */
module DemoFile {
  import opened Wire
  import opened Cursor
  import opened Huffman
  import opened Demo

  // ---------- writing

  /** appendTickMarker, with the previous tick passed in and out. */
  method AppendTickMarker(b: seq<byte>, tick: int, keyframe: bool, last: int) returns (b': seq<byte>, prevTick: int)
    ensures b' == b + EncodeMarker(tick, keyframe, last) && prevTick == tick
  {
    if last == -1 || tick - last > MAX_DELTA || keyframe {
      var head: byte := 0x80;
      if keyframe {
        head := head + 0x40;
      }
      b' := b + [head];
      b' := b' + BigEndian(tick);
    } else {
      b' := b + [CompressedHead(tick - last)];
    }
    prevTick := tick;
  }

  method AppendDataChunk(h: Codec, b: seq<byte>, typ: int, data: seq<byte>) returns (b': seq<byte>)
    ensures b' == b + EncodeChunk(h, DataChunk(typ, data), -1)
  {
    var payload := h.compress(data);
    b' := b + SizeHead(typ, |payload|);
    b' := b' + payload;
  }

  method AppendChunk(h: Codec, b: seq<byte>, ch: Chunk, prev: int) returns (b': seq<byte>, prevTick: int)
    ensures b' == b + EncodeChunk(h, ch, prev) && prevTick == NextTick(ch, prev)
  {
    match ch {
      case TickMarker(tick, keyframe) =>
        b', prevTick := AppendTickMarker(b, tick, keyframe, prev);
      case DataChunk(typ, data) =>
        b' := AppendDataChunk(h, b, typ, data);
        prevTick := prev;
    }
  }

  /** WriteTo, after the preamble. */
  method WriteChunks(h: Codec, cs: seq<Chunk>) returns (b: seq<byte>)
    ensures b == EncodeAll(h, cs, -1)
  {
    hide EncodeChunk;
    b := [];
    var prevTick := -1;
    assert cs[0..] == cs;
    for i := 0 to |cs|
      invariant b + EncodeAll(h, cs[i..], prevTick) == EncodeAll(h, cs, -1)
    {
      ghost var tail := EncodeAll(h, cs[i + 1..], NextTick(cs[i], prevTick));
      assert b + (EncodeChunk(h, cs[i], prevTick) + tail) == b + EncodeChunk(h, cs[i], prevTick) + tail;
      b, prevTick := AppendChunk(h, b, cs[i], prevTick);
    }
    assert b + [] == b;
  }

  /** The streaming encoder, with the bytes its writer has received and the chunks it was given. */
  class Encoder {
    const h: Codec
    var out: seq<byte>
    var prevTick: int
    var buf: seq<byte>
    ghost var written: seq<Chunk>

    ghost predicate Valid()
      reads this
    {
      out == EncodeAll(h, written, -1) && prevTick == LastTick(written, -1)
    }

    constructor (h: Codec)
      ensures Valid() && written == [] && this.h == h
    {
      this.h, out, prevTick, buf, written := h, [], -1, [], [];
    }

    /** The bytes out stay those WriteChunks produces for the chunks written so far. */
    method Write(ch: Chunk)
      requires Valid()
      modifies this
      ensures Valid() && written == old(written) + [ch]
    {
      hide EncodeChunk;
      buf, prevTick := AppendChunk(h, [], ch, prevTick);
      assert [] + EncodeChunk(h, ch, old(prevTick)) == buf;
      EncodeMore(h, written, ch, -1);
      out, written := out + buf, written + [ch];
    }
  }

  function LastTick(cs: seq<Chunk>, prev: int): int {
    if cs == [] then prev else LastTick(cs[1..], NextTick(cs[0], prev))
  }

  lemma {:induction false} EncodeMore(h: Codec, cs: seq<Chunk>, ch: Chunk, prev: int)
    ensures EncodeAll(h, cs + [ch], prev) == EncodeAll(h, cs, prev) + EncodeChunk(h, ch, LastTick(cs, prev))
    ensures LastTick(cs + [ch], prev) == NextTick(ch, LastTick(cs, prev))
  {
    hide EncodeChunk;
    if cs == [] {
      assert EncodeAll(h, [ch], prev) == EncodeChunk(h, ch, prev) + EncodeAll(h, [], NextTick(ch, prev));
      assert LastTick([ch], prev) == LastTick([], NextTick(ch, prev));
      assert cs + [ch] == [ch];
    } else {
      EncodeMore(h, cs[1..], ch, NextTick(cs[0], prev));
      assert (cs + [ch])[1..] == cs[1..] + [ch];
    }
  }

  // ---------- reading in memory

  method ReadMarker(u: Unpacker, version: int, b: byte, prev: int) returns (r: Result<Chunk>)
    requires u.Valid()
    modifies u
    ensures u.Valid()
    ensures var spec := DecodeMarker(b, version, prev, old(u.Rest()));
      r == spec.ToResult() && (spec.Ok? ==> u.Rest() == spec.rest && r.value.TickMarker?)
  {
    hide FromBigEndian;
    var keyframe := b / 0x40 % 2 == 1;
    match TickDelta(b, version) {
      case FourBytes =>
        var raw :- u.NextRaw(4);
        return Success(TickMarker(FromBigEndian(raw), keyframe));
      case Increase(delta) =>
        if prev < 0 {
          return Failure(BadChunk);
        }
        return Success(TickMarker(prev + delta, keyframe));
    }
  }

  /** readChunk over the in-memory cursor. */
  method ReadChunk(h: Codec, u: Unpacker, version: int, prev: int) returns (r: Result<Chunk>, prevTick: int)
    requires u.Valid()
    modifies u
    ensures u.Valid()
    ensures old(u.Rest()) == [] ==> r == Failure(Short)
    ensures old(u.Rest()) != [] ==>
      var spec := DecodeAfter(h, version, prev, old(u.Rest())[0], old(u.Rest())[1..]);
      r == spec.ToResult() && (spec.Ok? ==> u.Rest() == spec.rest && prevTick == NextTick(spec.value, prev))
  {
    hide DecodeMarker;
    prevTick := prev;
    var b := u.NextByte();
    if b.Failure? {
      r := Failure(b.error);
      return;
    }
    if b.value >= 0x80 {
      r := ReadMarker(u, version, b.value, prev);
      if r.Success? {
        prevTick := r.value.tick;
      }
      return;
    }
    r := ReadData(h, u, b.value);
  }

  lemma TakeIsReadRaw(s: seq<byte>, n: nat)
    ensures ReadRaw(s, n) == Take(s, n)
  {
  }

  method ReadData(h: Codec, u: Unpacker, b: byte) returns (r: Result<Chunk>)
    requires u.Valid()
    modifies u
    ensures u.Valid()
    ensures var spec := DecodeData(h, b, old(u.Rest()));
      r == spec.ToResult() && (spec.Ok? ==> u.Rest() == spec.rest && r.value.DataChunk?)
  {
    hide ReadRaw, Take, PayloadSize;
    var size :- ReadDataSize(u, b);
    TakeIsReadRaw(u.Rest(), size);
    var payload :- u.NextRaw(size);
    var data :- h.decompress(payload);
    r := Success(DataChunk(b / 0x20 % 4, data));
  }

  /** The size of the compressed payload: in the chunk's first byte, or in one or two bytes after it. */
  method ReadDataSize(u: Unpacker, b: byte) returns (r: Result<nat>)
    requires u.Valid()
    modifies u
    ensures u.Valid()
    ensures var spec := PayloadSize(b, old(u.Rest()));
      r == spec.ToResult() && (spec.Ok? ==> u.Rest() == spec.rest)
  {
    hide ReadRaw;
    TakeIsReadRaw(u.Rest(), 1);
    TakeIsReadRaw(u.Rest(), 2);
    var size: nat := b % 0x20;
    if size == 30 {
      var s :- u.NextRaw(1);
      size := s[0];
    } else if size == 31 {
      var s :- u.NextRaw(2);
      size := s[1] as int * 0x100 + s[0];
    }
    r := Success(size);
  }

  /** The chunk loop of Parse. */
  method ParseChunks(h: Codec, version: int, data: seq<byte>) returns (r: Result<seq<Chunk>>)
    ensures r == DecodeAll(h, version, -1, data)
  {
    hide DecodeAfter;
    ghost var all := DecodeAll(h, version, -1, data);
    ContinuesStart(all);
    var chunks: seq<Chunk> := [];
    var prevTick := -1;
    var u := new Unpacker(data);
    var remaining := u.RemainingSize();
    while remaining > 0
      invariant fresh(u) && u.Valid() && remaining == |u.Rest()|
      invariant Continues(all, DecodeAll(h, version, prevTick, u.Rest()), chunks)
      decreases remaining
    {
      ghost var now := DecodeAll(h, version, prevTick, u.Rest());
      var ch, next := ReadChunk(h, u, version, prevTick);
      if ch.Failure? {
        return Failure(ch.error);
      }
      ContinuesStep(all, now, chunks, [ch.value], DecodeAll(h, version, next, u.Rest()));
      chunks, prevTick := chunks + [ch.value], next;
      remaining := u.RemainingSize();
    }
    ContinuesEnd(all, chunks);
    r := Success(chunks);
  }

  // ---------- reading incrementally

  datatype Item = Decoded(ch: Chunk) | End | Failed(error: Error)

  /** The streaming decoder. */
  class Decoder {
    const h: Codec
    const version: int
    const r: Reader
    var prevTick: int
    var done: bool

    ghost predicate Valid()
      reads this, r
    {
      done ==> r.rest == []
    }

    /** What the chunks still to come are, by the in-memory parser's account. */
    ghost function Remaining(): Result<seq<Chunk>>
      reads this, r
    {
      DecodeAll(h, version, prevTick, r.rest)
    }

    constructor (h: Codec, version: int, r: Reader)
      ensures Valid() && Remaining() == DecodeAll(h, version, -1, r.rest) && this.r == r
    {
      this.h, this.version, this.r, prevTick, done := h, version, r, -1, false;
    }

    /** Each item handed out is the next one Parse returns; the end and the failures are those of Parse too. */
    method Next() returns (item: Item)
      requires Valid()
      modifies this, r
      ensures match item
        case End => old(Remaining()) == Success([]) && Valid() && done
        case Failed(e) => old(Remaining()) == Failure(e)
        case Decoded(ch) => Valid() && Continues(old(Remaining()), Remaining(), [ch])
      ensures old(done) ==> item == End
    {
      hide DecodeAfter;
      if done {
        return End;
      }
      var b := r.ReadByte();
      if b.Failure? {
        done := true;
        return End;
      }
      var ch := DecodeChunk(b.value);
      match ch {
        case Failure(e) => return Failed(e);
        case Success(c) => return Decoded(c);
      }
    }

    method DecodeChunk(b: byte) returns (res: Result<Chunk>)
      modifies this`prevTick, r
      ensures var spec := DecodeAfter(h, version, old(prevTick), b, old(r.rest));
        res == spec.ToResult() && (spec.Ok? ==> r.rest == spec.rest && prevTick == NextTick(spec.value, old(prevTick)))
    {
      hide FromBigEndian;
      if b >= 0x80 {
        var keyframe := b / 0x40 % 2 == 1;
        match TickDelta(b, version) {
          case FourBytes =>
            var raw :- r.ReadFull(4);
            prevTick := FromBigEndian(raw);
          case Increase(delta) =>
            if prevTick < 0 {
              return Failure(BadChunk);
            }
            prevTick := prevTick + delta;
        }
        return Success(TickMarker(prevTick, keyframe));
      }
      res := DecodePayload(b);
    }

    method DecodePayload(b: byte) returns (res: Result<Chunk>)
      modifies r
      ensures var spec := DecodeData(h, b, old(r.rest));
        res == spec.ToResult() && (spec.Ok? ==> r.rest == spec.rest && res.value.DataChunk?)
    {
      var size: int := b % 0x20;
      if size == 30 {
        ghost var s := r.rest;
        var n :- r.ReadByte();
        assert s[..1] == [n];
        size := n;
      } else if size == 31 {
        var n :- r.ReadFull(2);
        size := n[1] as int * 0x100 + n[0];
      }
      var payload :- r.ReadFull(size);
      var data :- h.decompress(payload);
      res := Success(DataChunk(b / 0x20 % 4, data));
    }
  }
}
