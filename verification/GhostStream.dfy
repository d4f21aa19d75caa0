/** The incremental ghost writer and reader. */
module GhostStream {
  import opened Wire
  import opened Cursor
  import opened Huffman
  import opened Ghost
  import opened GhostBody
  import GhostFile

  // ---------- writing

  /** The items held back are one unfinished run. */
  predicate Unfinished(pending: seq<Chunk>) {
    |pending| <= ITEMS_PER_CHUNK && forall i :: 0 <= i < |pending| ==> DataType(pending[i]) == DataType(pending[0])
  }

  /** A new item ends the run when it has another type or the run is full. */
  predicate EndsRun(pending: seq<Chunk>, c: Chunk) {
    pending != [] && (DataType(c) != DataType(pending[0]) || |pending| >= ITEMS_PER_CHUNK)
  }

  lemma {:induction false} RunOfPending(pending: seq<Chunk>, cs: seq<Chunk>, typ: int, limit: nat)
    requires |pending| <= limit && forall i :: 0 <= i < |pending| ==> DataType(pending[i]) == typ
    ensures RunLength(pending + cs, typ, limit) == |pending| + RunLength(cs, typ, limit - |pending|)
    decreases |pending|
  {
    if pending == [] {
      assert pending + cs == cs;
    } else {
      RunOfPending(pending[1..], cs, typ, limit - 1);
      assert (pending + cs)[1..] == pending[1..] + cs;
    }
  }

  /** When the run has ended, what it was followed by is written separately. */
  lemma EndedRun(h: Codec, pending: seq<Chunk>, cs: seq<Chunk>)
    requires Unfinished(pending) && pending != [] && (cs == [] || EndsRun(pending, cs[0]))
    ensures match EncodeRun(h, pending)
      case Failure(e) => EncodeBody(h, pending + cs) == Failure(e)
      case Success(group) => Continues(EncodeBody(h, pending + cs), EncodeBody(h, cs), group)
  {
    hide EncodeRun;
    RunOfPending(pending, cs, DataType(pending[0]), ITEMS_PER_CHUNK);
    assert FirstRun(pending + cs) == |pending|;
    assert (pending + cs)[..|pending|] == pending && (pending + cs)[|pending|..] == cs;
  }

  /** Whatever is written next, the bytes already out open the body of the whole list. */
  ghost predicate Ahead(h: Codec, flushed: seq<Chunk>, pending: seq<Chunk>, out: seq<byte>) {
    forall cs :: Continues(EncodeBody(h, flushed + (pending + cs)), EncodeBody(h, pending + cs), out)
  }

  lemma AheadStart(h: Codec)
    ensures Ahead(h, [], [], [])
  {
    hide EncodeBody;
    forall cs ensures Continues(EncodeBody(h, [] + ([] + cs)), EncodeBody(h, [] + cs), []) {
      assert [] + ([] + cs) == [] + cs;
      ContinuesStart(EncodeBody(h, [] + cs));
    }
  }

  lemma AheadGrow(h: Codec, f: seq<Chunk>, p: seq<Chunk>, o: seq<byte>, c: Chunk)
    requires Ahead(h, f, p, o)
    ensures Ahead(h, f, p + [c], o)
  {
    hide EncodeBody;
    forall cs ensures Continues(EncodeBody(h, f + ((p + [c]) + cs)), EncodeBody(h, (p + [c]) + cs), o) {
      assert (p + [c]) + cs == p + ([c] + cs);
    }
  }

  lemma AheadFlush(h: Codec, f: seq<Chunk>, p: seq<Chunk>, o: seq<byte>, cs: seq<Chunk>)
    requires Unfinished(p) && p != [] && (cs == [] || EndsRun(p, cs[0])) && Ahead(h, f, p, o)
    ensures match EncodeRun(h, p)
      case Failure(e) => EncodeBody(h, f + p + cs) == Failure(e)
      case Success(group) => Continues(EncodeBody(h, f + p + cs), EncodeBody(h, cs), o + group)
  {
    hide EncodeBody, EncodeRun;
    EndedRun(h, p, cs);
    assert f + (p + cs) == f + p + cs;
    var group := EncodeRun(h, p);
    if group.Success? {
      ContinuesStep(EncodeBody(h, f + (p + cs)), EncodeBody(h, p + cs), o, group.value, EncodeBody(h, cs));
    }
  }

  lemma AheadNext(h: Codec, f: seq<Chunk>, p: seq<Chunk>, o: seq<byte>, c: Chunk)
    requires Unfinished(p) && EndsRun(p, c) && Ahead(h, f, p, o)
    ensures match EncodeRun(h, p)
      case Failure(e) => NeverWritten(h, f + p + [c], e)
      case Success(group) => Ahead(h, f + p, [c], o + group)
  {
    hide EncodeBody, EncodeRun;
    forall cs ensures match EncodeRun(h, p)
        case Failure(e) => EncodeBody(h, (f + p + [c]) + cs) == Failure(e)
        case Success(group) => Continues(EncodeBody(h, (f + p) + ([c] + cs)), EncodeBody(h, [c] + cs), o + group) {
      AheadFlush(h, f, p, o, [c] + cs);
      assert (f + p + [c]) + cs == f + p + ([c] + cs);
    }
  }

  /** No file whose items start like this can be written. */
  ghost predicate NeverWritten(h: Codec, start: seq<Chunk>, e: Error) {
    forall cs :: EncodeBody(h, start + cs) == Failure(e)
  }

  /** Encoder. The ghosts record what was written out and what is held back. */
  class Encoder {
    const h: Codec
    var out: seq<byte>
    var typ: int
    var items: seq<Fields>
    ghost var flushed: seq<Chunk>
    ghost var pending: seq<Chunk>

    ghost function Written(): seq<Chunk>
      reads this
    {
      flushed + pending
    }

    ghost predicate Valid()
      reads this
    {
      && Unfinished(pending) && items == AllFields(pending)
      && (pending != [] ==> typ == DataType(pending[0]))
      && Ahead(h, flushed, pending, out)
    }

    constructor (h: Codec)
      ensures Valid() && Written() == [] && out == [] && this.h == h
    {
      this.h, out, typ, items, flushed, pending := h, [], 0, [], [], [];
      new;
      AheadStart(h);
    }

    method Write(c: Chunk) returns (r: Result<()>)
      requires Valid()
      modifies this
      ensures r.Success? ==> Valid() && Written() == old(Written()) + [c]
      ensures r.Failure? ==> NeverWritten(h, old(Written()) + [c], r.error)
    {
      hide Ahead, EncodeRun, NeverWritten, AllFields, EncodeBody;
      ghost var f, p, o := flushed, pending, out;
      if |items| > 0 && (DataType(c) != typ || |items| >= ITEMS_PER_CHUNK) {
        AheadNext(h, f, p, o, c);
        var flushResult := Flush();
        if flushResult.Failure? {
          return Failure(flushResult.error);
        }
        assert [] + [c] == [c];
      } else {
        AheadGrow(h, f, p, o, c);
      }
      Hold(c);
      r := Success(());
    }

    /** The item becomes the last one of the unfinished run. */
    method Hold(c: Chunk)
      requires Unfinished(pending) && items == AllFields(pending) && !EndsRun(pending, c)
      requires Ahead(h, flushed, pending + [c], out)
      modifies `typ, `items, `pending
      ensures Valid() && Written() == old(Written()) + [c]
    {
      hide Ahead, AllFields;
      typ := DataType(c);
      AllFieldsMore(pending, c);
      assert flushed + (pending + [c]) == flushed + pending + [c];
      items, pending := items + [FieldsOf(c)], pending + [c];
    }

    /** Emits the unfinished run. */
    method Flush() returns (r: Result<()>)
      requires Unfinished(pending) && items == AllFields(pending) && (pending != [] ==> typ == DataType(pending[0]))
      modifies this
      ensures match if old(pending) == [] then Success([]) else EncodeRun(h, old(pending))
        case Failure(e) => r == Failure(e)
        case Success(group) =>
          r == Success(()) && items == AllFields([]) && pending == []
          && flushed == old(flushed) + old(pending) && out == old(out) + group
    {
      hide EncodeGroup;
      if |items| == 0 {
        assert flushed + pending == flushed && out + [] == out;
        return Success(());
      }
      var b := GhostFile.AppendPhysicalChunk(h, [], typ, items);
      if b.Failure? {
        return Failure(b.error);
      }
      assert [] + EncodeRun(h, pending).value == EncodeRun(h, pending).value;
      out := out + b.value;
      items, flushed, pending := [], flushed + pending, [];
      r := Success(());
    }

    /** After Close the bytes out are exactly those WriteTo produces for the list of items written. */
    method Close() returns (r: Result<()>)
      requires Valid()
      modifies this
      ensures match EncodeBody(h, old(Written()))
        case Success(b) => r == Success(()) && out == b
        case Failure(e) => r == Failure(e)
    {
      ghost var o := out;
      Closing(h, flushed, pending, o);
      r := Flush();
    }
  }

  lemma Closing(h: Codec, f: seq<Chunk>, p: seq<Chunk>, o: seq<byte>)
    requires Unfinished(p) && Ahead(h, f, p, o)
    ensures match if p == [] then Success([]) else EncodeRun(h, p)
      case Failure(e) => EncodeBody(h, f + p) == Failure(e)
      case Success(group) => EncodeBody(h, f + p) == Success(o + group)
  {
    hide EncodeRun;
    assert f + p + [] == f + p;
    if p == [] {
      assert Continues(EncodeBody(h, f + ([] + [])), EncodeBody(h, [] + []), o);
      assert f + ([] + []) == f + p;
    } else {
      AheadFlush(h, f, p, o, []);
      assert EncodeBody(h, []) == Success([]);
      if EncodeRun(h, p).Success? {
        ContinuesEnd(EncodeBody(h, f + p), o + EncodeRun(h, p).value);
      }
    }
  }

  lemma AllFieldsMore(cs: seq<Chunk>, c: Chunk)
    ensures AllFields(cs + [c]) == AllFields(cs) + [FieldsOf(c)]
  {
  }

  // ---------- reading

  datatype Item = Decoded(c: Chunk) | End | Failed(error: Error)

  /** A reader's state: items decoded but not yet handed out, and the bytes not yet pulled. */
  datatype State = State(ready: seq<Chunk>, rest: seq<byte>)

  function Refill(h: Codec, s: State): Result<State>
    requires s.ready == [] && s.rest != []
    ensures Refill(h, s).Success? ==> Refill(h, s).value.ready != [] && |Refill(h, s).value.rest| < |s.rest|
  {
    match SplitChunk(s.rest)
    case Bad(e) => Failure(e)
    case Ok(p, rest) =>
      var cs :- DecodeGroup(h, p.typ, p.numItems, p.payload);
      Success(State(cs, rest))
  }

  function Drain(h: Codec, s: State): Result<seq<Chunk>>
    decreases |s.rest|, |s.ready|
  {
    if s.ready != [] then
      var cs :- Drain(h, s.(ready := s.ready[1..]));
      Success([s.ready[0]] + cs)
    else if s.rest == [] then Success([])
    else
      var s' :- Refill(h, s);
      Drain(h, s')
  }

  lemma {:induction false} DrainReady(h: Codec, s: State)
    ensures Continues(Drain(h, s), Drain(h, s.(ready := [])), s.ready)
    decreases |s.ready|
  {
    if s.ready == [] {
      ContinuesStart(Drain(h, s));
    } else {
      var s' := s.(ready := s.ready[1..]);
      DrainReady(h, s');
      assert [s.ready[0]] + s'.ready == s.ready;
      ContinuesStep(Drain(h, s), Drain(h, s'), [s.ready[0]], s'.ready, Drain(h, s.(ready := [])));
    }
  }

  /** On every byte string the incremental reader hands out exactly the items Parse returns. */
  lemma {:induction false} DrainIsParse(h: Codec, body: seq<byte>)
    ensures Drain(h, State([], body)) == DecodeBody(h, body)
    decreases |body|
  {
    hide DecodeGroup;
    var s := State([], body);
    if body != [] && Refill(h, s).Success? {
      var s' := Refill(h, s).value;
      DrainReady(h, s');
      DrainIsParse(h, s'.rest);
    }
  }

  class Decoder {
    const h: Codec
    const r: Reader
    var pending: seq<Chunk>
    var idx: nat
    var done: bool

    ghost predicate Valid()
      reads this, r
    {
      idx <= |pending| && (done ==> idx == |pending| && r.rest == [])
    }

    ghost function Abs(): State
      requires Valid()
      reads this, r
    {
      State(pending[idx..], r.rest)
    }

    constructor (h: Codec, r: Reader)
      ensures Valid() && Abs() == State([], r.rest) && this.h == h && this.r == r
    {
      this.h, this.r, pending, idx, done := h, r, [], 0, false;
    }

    /** Hands out the next item. The end is final: every later call answers it again. */
    method Next() returns (item: Item)
      requires Valid()
      modifies this, r
      ensures match item
        case End => Drain(h, old(Abs())) == Success([]) && Valid() && done && Abs() == State([], [])
        case Failed(e) => Drain(h, old(Abs())) == Failure(e)
        case Decoded(c) => Valid() && Continues(Drain(h, old(Abs())), Drain(h, Abs()), [c])
      ensures old(done) ==> item == End
    {
      hide DecodeGroup;
      while idx >= |pending|
        invariant Valid() && Drain(h, Abs()) == Drain(h, old(Abs()))
        decreases |r.rest|, idx >= |pending|
      {
        if done {
          return End;
        }
        var refilled := ReadChunk();
        match refilled {
          case Failure(e) => return Failed(e);
          case Success(eof) =>
            if eof {
              return End;
            }
        }
      }
      item := Decoded(pending[idx]);
      ghost var before := Abs();
      idx := idx + 1;
      assert before.ready[1..] == Abs().ready && before.ready[0] == item.c;
    }

    /** Reads and decodes one physical chunk; true means the stream ended before it. */
    method ReadChunk() returns (res: Result<bool>)
      requires Valid() && idx == |pending| && !done
      modifies this, r
      ensures old(r.rest) == [] ==> res == Success(true) && Valid() && Abs() == old(Abs()) && done
      ensures old(r.rest) != [] ==>
        match Refill(h, old(Abs()))
        case Failure(e) => res == Failure(e)
        case Success(s') => res == Success(false) && Valid() && !done && Abs() == s'
    {
      hide DecodeGroup, SplitChunk;
      if r.rest == [] {
        done := true;
        return Success(true);
      }
      var p := ReadPhysical(r);
      if p.Failure? {
        return Failure(p.error);
      }
      var chunks := GhostFile.DecodePhysicalChunk(h, p.value.typ, p.value.numItems, p.value.payload);
      if chunks.Failure? {
        return Failure(chunks.error);
      }
      pending, idx := chunks.value, 0;
      res := Success(false);
    }
  }

  /** The four header bytes and the payload they announce. */
  method ReadPhysical(r: Reader) returns (p: Result<Physical>)
    modifies r
    ensures var spec := SplitChunk(old(r.rest));
      p == spec.ToResult() && (spec.Ok? ==> r.rest == spec.rest)
  {
    ghost var body := r.rest;
    var head := r.ReadFull(4);
    if head.Failure? {
      return Failure(Short);
    }
    var size := PayloadSize(head.value[2], head.value[3]);
    if size <= 0 || size > MAX_CHUNK_SIZE {
      return Failure(BadChunk);
    }
    var payload := r.ReadFull(size);
    if payload.Failure? {
      return Failure(Short);
    }
    assert body[4..][..size] == body[4..4 + size] && body[4..][size..] == body[4 + size..];
    p := Success(Physical(head.value[0], head.value[1], payload.value));
  }
}
