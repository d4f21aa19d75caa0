/** The body of a ghost file: greedy grouping, and exactly when it can be read back. */
module GhostBody {
  import opened Wire
  import opened Huffman
  import opened Ghost
  import Cursor

  // ---------- grouping and writing

  /** How many items of one type open the list, counting no further than `limit`. */
  function RunLength(cs: seq<Chunk>, typ: int, limit: nat): (n: nat)
    ensures n <= |cs| && n <= limit
    ensures forall i :: 0 <= i < n ==> DataType(cs[i]) == typ
    ensures n < |cs| && n < limit ==> DataType(cs[n]) != typ
  {
    if cs == [] || limit == 0 || DataType(cs[0]) != typ then 0
    else 1 + RunLength(cs[1..], typ, limit - 1)
  }

  function FirstRun(cs: seq<Chunk>): (n: nat)
    requires cs != []
    ensures 1 <= n <= |cs| && n <= ITEMS_PER_CHUNK
  {
    RunLength(cs, DataType(cs[0]), ITEMS_PER_CHUNK)
  }

  function AllFields(cs: seq<Chunk>): (items: seq<Fields>)
    ensures |items| == |cs| && forall i :: 0 <= i < |cs| ==> items[i] == FieldsOf(cs[i])
  {
    seq(|cs|, i requires 0 <= i < |cs| => FieldsOf(cs[i]))
  }

  function EncodeRun(h: Codec, cs: seq<Chunk>): Result<seq<byte>>
    requires cs != []
  {
    EncodeGroup(h, DataType(cs[0]), AllFields(cs))
  }

  function EncodeBody(h: Codec, cs: seq<Chunk>): Result<seq<byte>>
    decreases |cs|
  {
    if cs == [] then Success([])
    else
      var n := FirstRun(cs);
      var group :- EncodeRun(h, cs[..n]);
      var rest :- EncodeBody(h, cs[n..]);
      Success(group + rest)
  }

  // ---------- reading

  datatype Physical = Physical(typ: byte, numItems: byte, payload: seq<byte>)

  function PayloadSize(high: int, low: int): int {
    high * 0x100 + low
  }

  function SplitChunk(body: seq<byte>): (r: Parsed<Physical>)
    ensures r.Ok? ==> |r.rest| < |body|
  {
    if |body| < 4 then Bad(Short)
    else
      var size := PayloadSize(body[2], body[3]);
      if size <= 0 || size > MAX_CHUNK_SIZE then Bad(BadChunk)
      else if |body| < 4 + size then Bad(Short)
      else Ok(Physical(body[0], body[1], body[4..4 + size]), body[4 + size..])
  }

  function DecodeBody(h: Codec, body: seq<byte>): Result<seq<Chunk>>
    decreases |body|
  {
    if body == [] then Success([])
    else
      match SplitChunk(body)
      case Bad(e) => Failure(e)
      case Ok(p, rest) =>
        var cs :- DecodeGroup(h, p.typ, p.numItems, p.payload);
        var more :- DecodeBody(h, rest);
        Success(cs + more)
  }

  // ---------- what survives

  /** One run that can be read back: its type fits in a byte, its items are canonical, their field counts agree. */
  predicate SoundRun(cs: seq<Chunk>)
    requires cs != []
  {
    && 0 <= DataType(cs[0]) < 0x100
    && (forall i :: 0 <= i < |cs| ==> Canonical(cs[i]))
    && UniformGroup(AllFields(cs))
  }

  predicate Sound(cs: seq<Chunk>)
    decreases |cs|
  {
    cs != [] ==> SoundRun(cs[..FirstRun(cs)]) && Sound(cs[FirstRun(cs)..])
  }

  /** A condition on neighbours that needs no grouping: one field count per stretch of equal type. */
  predicate OneCountPerType(cs: seq<Chunk>) {
    && (forall i :: 0 <= i < |cs| ==>
          0 <= DataType(cs[i]) < 0x100 && Canonical(cs[i]) && 1 <= |FieldsOf(cs[i])| <= MAX_ITEM_SIZE / 4)
    && (forall i :: 0 < i < |cs| && DataType(cs[i - 1]) == DataType(cs[i]) ==>
          |FieldsOf(cs[i - 1])| == |FieldsOf(cs[i])|)
  }

  lemma {:induction false} StretchIsUniform(cs: seq<Chunk>, n: nat)
    requires OneCountPerType(cs) && 0 < n <= |cs|
    requires forall i :: 0 <= i < n ==> DataType(cs[i]) == DataType(cs[0])
    ensures SameLength(AllFields(cs[..n]), |FieldsOf(cs[0])|)
  {
    if n > 1 {
      StretchIsUniform(cs, n - 1);
      assert |FieldsOf(cs[n - 2])| == |AllFields(cs[..n - 1])[n - 2]|;
      forall i | 0 <= i < n ensures |AllFields(cs[..n])[i]| == |FieldsOf(cs[0])| {
        if i < n - 1 {
          assert AllFields(cs[..n])[i] == AllFields(cs[..n - 1])[i];
        }
      }
    }
  }

  lemma {:induction false} OneCountIsSound(cs: seq<Chunk>)
    requires OneCountPerType(cs)
    ensures Sound(cs)
    decreases |cs|
  {
    hide SoundRun, OneCountPerType;
    if cs != [] {
      FirstRunIsSound(cs);
      OneCountOfRest(cs, FirstRun(cs));
      OneCountIsSound(cs[FirstRun(cs)..]);
    }
  }

  lemma FirstRunIsSound(cs: seq<Chunk>)
    requires cs != [] && OneCountPerType(cs)
    ensures SoundRun(cs[..FirstRun(cs)])
  {
    hide FieldsOf, DataType, Canonical;
    StretchIsUniform(cs, FirstRun(cs));
  }

  lemma OneCountOfRest(cs: seq<Chunk>, n: nat)
    requires OneCountPerType(cs) && n <= |cs|
    ensures OneCountPerType(cs[n..])
  {
    hide FieldsOf, DataType, Canonical;
    forall i | 0 < i < |cs[n..]| && DataType(cs[n..][i - 1]) == DataType(cs[n..][i])
      ensures |FieldsOf(cs[n..][i - 1])| == |FieldsOf(cs[n..][i])| {
      assert cs[n..][i - 1] == cs[n + i - 1] && cs[n..][i] == cs[n + i];
    }
  }

  /** The chunk header can be read back, and the payload when it is not empty. */
  lemma SplitOfGroup(h: Codec, cs: seq<Chunk>, rest: seq<byte>)
    requires 0 < |cs| <= ITEMS_PER_CHUNK && EncodeRun(h, cs).Success?
    ensures var items := AllFields(cs);
      && Differences(items[0], items[1..]).Success?
      && var comp := h.compress(Cursor.AppendInts(items[0] + Differences(items[0], items[1..]).value));
      SplitChunk(EncodeRun(h, cs).value + rest)
        == if comp == [] then Bad(BadChunk) else Ok(Physical(DataType(cs[0]) % 0x100, |cs|, comp), rest)
  {
    hide Differences;
    var items := AllFields(cs);
    var comp := h.compress(Cursor.AppendInts(items[0] + Differences(items[0], items[1..]).value));
    var head: seq<byte> := [DataType(cs[0]) % 0x100, |cs|, |comp| / 0x100, |comp| % 0x100];
    var body := EncodeRun(h, cs).value + rest;
    assert body == head + comp + rest;
    assert body[4..4 + |comp|] == comp && body[4 + |comp|..] == rest;
  }

  /** What a group decodes to is sound, whatever the payload. */
  lemma DecodedGroupIsSound(h: Codec, typ: byte, n: nat, payload: seq<byte>)
    requires DecodeGroup(h, typ, n, payload).Success?
    ensures SoundRun(DecodeGroup(h, typ, n, payload).value)
  {
    hide UnpackInts, Undiff;
    var ints := UnpackInts(h.decompress(payload).value).value;
    QuotientExact(|ints|, n);
    var items := Undiff(Zeros(|ints| / n), ints, n);
    var cs := Chunks(typ, items);
    assert |ints| / n >= 1;
    forall i | 0 <= i < n ensures Canonical(cs[i]) && AllFields(cs)[i] == items[i] && DataType(cs[i]) == typ {
      FieldsOfFromFields(typ, items[i]);
    }
  }

  lemma DecodeOfEncodeRun(h: Codec, cs: seq<Chunk>, rest: seq<byte>)
    requires h.Lossless() && 0 < |cs| <= ITEMS_PER_CHUNK && SoundRun(cs) && EncodeRun(h, cs).Success?
    requires forall i :: 0 <= i < |cs| ==> DataType(cs[i]) == DataType(cs[0])
    ensures var p := SplitChunk(EncodeRun(h, cs).value + rest);
      p.Ok? && p.rest == rest && DecodeGroup(h, p.value.typ, p.value.numItems, p.value.payload) == Success(cs)
  {
    hide DecodeGroup, Differences, Cursor.AppendInts;
    var items := AllFields(cs);
    SplitOfGroup(h, cs, rest);
    DecodeGroupOfEncode(h, DataType(cs[0]), items);
    assert h.compress(Cursor.AppendInts(items[0] + Differences(items[0], items[1..]).value)) != [] by {
      NonEmpty(items[0] + Differences(items[0], items[1..]).value);
    }
    assert Chunks(DataType(cs[0]), items) == cs;
  }

  lemma NonEmpty(vs: seq<int>)
    ensures vs != [] ==> Cursor.AppendInts(vs) != []
  {
  }

  /** Writing a sound list cannot panic: the only failure is a chunk that compresses too badly. */
  lemma {:induction false} SoundIsWritten(h: Codec, cs: seq<Chunk>)
    requires Sound(cs)
    ensures EncodeBody(h, cs).Success? || EncodeBody(h, cs) == Failure(BadChunk)
    decreases |cs|
  {
    if cs != [] {
      var n := FirstRun(cs);
      var items := AllFields(cs[..n]);
      UndiffOfDifferences(items[0], items[1..]);
      SoundIsWritten(h, cs[n..]);
    }
  }

  /** An item list that could be written is read back unchanged exactly when it is sound. */
  lemma {:induction false} BodyRoundTrip(h: Codec, cs: seq<Chunk>)
    requires h.Lossless() && EncodeBody(h, cs).Success?
    ensures DecodeBody(h, EncodeBody(h, cs).value) == Success(cs) <==> Sound(cs)
    decreases |cs|
  {
    hide EncodeRun, DecodeBody, SoundRun;
    if cs == [] {
      DecodeNothing(h);
    } else {
      var n := FirstRun(cs);
      var run, tail := cs[..n], cs[n..];
      var rest := EncodeBody(h, tail).value;
      BodyRoundTrip(h, tail);
      RoundTripStep(h, run, tail, rest);
      assert run + tail == cs;
    }
  }

  lemma DecodeNothing(h: Codec)
    ensures DecodeBody(h, []) == Success([])
  {
  }

  lemma RoundTripStep(h: Codec, run: seq<Chunk>, tail: seq<Chunk>, rest: seq<byte>)
    requires h.Lossless() && 0 < |run| <= ITEMS_PER_CHUNK && EncodeRun(h, run).Success?
    requires forall i :: 0 <= i < |run| ==> DataType(run[i]) == DataType(run[0])
    ensures DecodeBody(h, EncodeRun(h, run).value + rest) == Success(run + tail)
      <==> SoundRun(run) && DecodeBody(h, rest) == Success(tail)
  {
    hide EncodeRun, DecodeGroup, SoundRun;
    var body := EncodeRun(h, run).value + rest;
    SplitOfGroup(h, run, rest);
    if SoundRun(run) {
      DecodeOfEncodeRun(h, run, rest);
    }
    var p := SplitChunk(body);
    if p.Ok? && DecodeGroup(h, p.value.typ, p.value.numItems, p.value.payload).Success? {
      DecodedGroupIsSound(h, p.value.typ, p.value.numItems, p.value.payload);
      var cs := DecodeGroup(h, p.value.typ, p.value.numItems, p.value.payload).value;
      if DecodeBody(h, rest).Success? {
        var more := DecodeBody(h, rest).value;
        SameSplit(cs, more, run, tail);
      }
    }
  }

  lemma SameSplit(a: seq<Chunk>, b: seq<Chunk>, c: seq<Chunk>, d: seq<Chunk>)
    requires |a| == |c|
    ensures a + b == c + d <==> a == c && b == d
  {
    assert (a + b)[..|a|] == a && (a + b)[|a|..] == b;
    assert (c + d)[..|c|] == c && (c + d)[|c|..] == d;
  }
}
