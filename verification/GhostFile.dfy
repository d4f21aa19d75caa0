/** The ghost file reader and writer as loops over items, fields and bytes. */
module GhostFile {
  import opened Wire
  import opened Cursor
  import opened Huffman
  import opened Ghost
  import opened GhostBody
  import Varint

  /** Appends cur's differences to prev; indexing past the end of prev panics. */
  method AppendDifferences(ints: Fields, cur: Fields, prev: Fields) returns (r: Result<Fields>)
    ensures r == if |cur| > |prev| then Failure(Panic) else Success(ints + Subtract(cur, prev))
  {
    var out := ints;
    for j := 0 to |cur|
      invariant j <= |prev|
      invariant out == ints + Subtract(cur[..j], prev)
    {
      if j >= |prev| {
        return Failure(Panic);
      }
      assert Subtract(cur[..j + 1], prev) == Subtract(cur[..j], prev) + [WrapSubtract(cur[j], prev[j])];
      out := out + [WrapSubtract(cur[j], prev[j])];
    }
    assert cur[..|cur|] == cur;
    r := Success(out);
  }

  method AllDifferences(items: seq<Fields>) returns (r: Result<Fields>)
    requires items != []
    ensures match Differences(items[0], items[1..])
      case Success(diffs) => r == Success(items[0] + diffs)
      case Failure(e) => r == Failure(e)
  {
    hide Subtract;
    ghost var all := Differences(items[0], items[1..]);
    ghost var diffs: Fields := [];
    ContinuesStart(all);
    var ints: Fields := items[0];
    var prev := items[0];
    for k := 1 to |items|
      invariant prev == items[k - 1] && ints == items[0] + diffs
      invariant Continues(all, Differences(prev, items[k..]), diffs)
    {
      var cur := items[k];
      assert items[k..][0] == cur && items[k..][1..] == items[k + 1..];
      var next := AppendDifferences(ints, cur, prev);
      if next.Failure? {
        return Failure(next.error);
      }
      ContinuesStep(all, Differences(prev, items[k..]), diffs, Subtract(cur, prev), Differences(cur, items[k + 1..]));
      diffs := diffs + Subtract(cur, prev);
      ints, prev := next.value, cur;
    }
    ContinuesEnd(all, diffs);
    r := Success(ints);
  }

  method AppendPhysicalChunk(h: Codec, b: seq<byte>, typ: int, items: seq<Fields>) returns (r: Result<seq<byte>>)
    ensures match EncodeGroup(h, typ, items)
      case Success(group) => r == Success(b + group)
      case Failure(e) => r == Failure(e)
  {
    hide Differences, AppendInts;
    if |items| == 0 {
      assert b + [] == b;
      return Success(b);
    }
    var ints := AllDifferences(items);
    if ints.Failure? {
      return Failure(ints.error);
    }
    var packed := AppendEach([], ints.value);
    assert packed == AppendInts(ints.value);
    var comp := h.compress(packed);
    if |comp| > MAX_CHUNK_SIZE {
      return Failure(BadChunk);
    }
    var head: seq<byte> := [typ % 0x100, |items| % 0x100, |comp| / 0x100, |comp| % 0x100];
    assert b + head + comp == b + (head + comp);
    r := Success(b + head + comp);
  }

  method ReadAllInts(data: seq<byte>) returns (r: Result<Fields>)
    ensures r == UnpackInts(data)
  {
    hide Varint.Decode;
    var u := new Unpacker(data);
    ghost var all := UnpackInts(data);
    ContinuesStart(all);
    var out: Fields := [];
    var remaining := u.RemainingSize();
    while remaining > 0
      invariant fresh(u) && u.Valid() && remaining == |u.Rest()|
      invariant Continues(all, UnpackInts(u.Rest()), out)
      decreases remaining
    {
      ghost var before := u.Rest();
      var v := u.NextInt();
      if v.Failure? {
        return Failure(v.error);
      }
      ContinuesStep(all, UnpackInts(before), out, [v.value], UnpackInts(u.Rest()));
      out := out + [v.value];
      remaining := u.RemainingSize();
    }
    ContinuesEnd(all, out);
    r := Success(out);
  }

  /** Rebuilds one item's absolute values; the first item of a chunk is stored as it is. */
  method Absolute(raw: Fields, prev: Fields, first: bool) returns (cur: Fields)
    requires |raw| == |prev| && (first ==> prev == Zeros(|raw|))
    ensures cur == Accumulate(prev, raw)
  {
    if first {
      SubtractZeros(raw);
      return raw;
    }
    cur := [];
    for j := 0 to |raw|
      invariant |cur| == j && forall i :: 0 <= i < j ==> cur[i] == WrapAdd(prev[i], raw[i])
    {
      cur := cur + [WrapAdd(prev[j], raw[j])];
    }
  }

  method DecodePhysicalChunk(h: Codec, typ: int, numItems: nat, payload: seq<byte>) returns (r: Result<seq<Chunk>>)
    ensures r == DecodeGroup(h, typ, numItems, payload)
  {
    hide UnpackInts;
    if numItems <= 0 {
      return Failure(BadChunk);
    }
    var packed :- h.decompress(payload);
    var ints :- ReadAllInts(packed);
    if |ints| == 0 || |ints| % numItems != 0 {
      return Failure(BadChunk);
    }
    var fpi := |ints| / numItems;
    if fpi * 4 > MAX_ITEM_SIZE {
      return Failure(BadChunk);
    }
    QuotientExact(|ints|, numItems);
    var chunks := DecodeItems(typ, numItems, fpi, ints);
    r := Success(chunks);
  }

  method DecodeItems(typ: int, numItems: nat, fpi: nat, ints: Fields) returns (chunks: seq<Chunk>)
    requires |ints| == numItems * fpi
    ensures chunks == Chunks(typ, Undiff(Zeros(fpi), ints, numItems))
  {
    hide Undiff, Chunks, FromFields, Accumulate;
    chunks := [];
    var prev := Zeros(fpi);
    var rest := ints;
    ghost var all := Chunks(typ, Undiff(prev, rest, numItems));
    assert [] + all == all;
    for i := 0 to numItems
      invariant |prev| == fpi && |rest| == (numItems - i) * fpi && (i == 0 ==> prev == Zeros(fpi))
      invariant chunks + Chunks(typ, Undiff(prev, rest, numItems - i)) == all
    {
      OneItem(typ, prev, rest, numItems - i);
      var cur := Absolute(rest[..fpi], prev, i == 0);
      ghost var tail := Chunks(typ, Undiff(cur, rest[fpi..], numItems - i - 1));
      assert chunks + ([FromFields(typ, cur)] + tail) == chunks + [FromFields(typ, cur)] + tail;
      chunks, prev, rest := chunks + [FromFields(typ, cur)], cur, rest[fpi..];
    }
    assert chunks + [] == chunks;
  }

  lemma OneItem(typ: int, prev: Fields, ints: Fields, n: nat)
    requires n > 0 && |ints| == n * |prev|
    ensures |prev| <= |ints| && |ints[|prev|..]| == (n - 1) * |prev|
    ensures var cur := Accumulate(prev, ints[..|prev|]);
      Chunks(typ, Undiff(prev, ints, n)) == [FromFields(typ, cur)] + Chunks(typ, Undiff(cur, ints[|prev|..], n - 1))
  {
    hide FromFields, Accumulate;
    assert n * |prev| == |prev| + (n - 1) * |prev|;
  }

  /** The inner loop of WriteTo: collects one run, from the i-th item on, and says where it ends. */
  method CollectRun(chunks: seq<Chunk>, i: nat) returns (items: seq<Fields>, j: nat)
    requires i < |chunks|
    ensures i < j <= |chunks| && j - i == FirstRun(chunks[i..])
    ensures items == AllFields(chunks[i..j])
  {
    var typ := DataType(chunks[i]);
    items, j := [], i;
    while j < |chunks| && |items| < ITEMS_PER_CHUNK && DataType(chunks[j]) == typ
      invariant i <= j <= |chunks| && j - i == |items| <= ITEMS_PER_CHUNK
      invariant items == AllFields(chunks[i..j])
      invariant FirstRun(chunks[i..]) == (j - i) + RunLength(chunks[j..], typ, ITEMS_PER_CHUNK - (j - i))
      decreases |chunks| - j
    {
      assert chunks[j..][1..] == chunks[j + 1..];
      assert AllFields(chunks[i..j + 1]) == AllFields(chunks[i..j]) + [FieldsOf(chunks[j])];
      items, j := items + [FieldsOf(chunks[j])], j + 1;
    }
  }

  /** WriteTo, after the header: regroup, then write each group. */
  method WriteBody(h: Codec, chunks: seq<Chunk>) returns (r: Result<seq<byte>>)
    ensures r == EncodeBody(h, chunks)
  {
    hide EncodeGroup, FirstRun, AllFields;
    ghost var all := EncodeBody(h, chunks);
    ContinuesStart(all);
    var b: seq<byte> := [];
    var i := 0;
    assert chunks[0..] == chunks;
    while i < |chunks|
      invariant 0 <= i <= |chunks|
      invariant Continues(all, EncodeBody(h, chunks[i..]), b)
    {
      var items, j := CollectRun(chunks, i);
      assert chunks[i..][..j - i] == chunks[i..j] && chunks[i..][j - i..] == chunks[j..];
      var next := AppendPhysicalChunk(h, b, DataType(chunks[i]), items);
      if next.Failure? {
        return Failure(next.error);
      }
      ContinuesStep(all, EncodeBody(h, chunks[i..]), b, EncodeRun(h, chunks[i..j]).value, EncodeBody(h, chunks[j..]));
      b, i := next.value, j;
    }
    ContinuesEnd(all, b);
    r := Success(b);
  }

  /** Parse, after the header. */
  method ParseBody(h: Codec, data: seq<byte>) returns (r: Result<seq<Chunk>>)
    ensures r == DecodeBody(h, data)
  {
    hide DecodeGroup;
    ghost var all := DecodeBody(h, data);
    ContinuesStart(all);
    var chunks: seq<Chunk> := [];
    var body := data;
    while |body| > 0
      invariant Continues(all, DecodeBody(h, body), chunks)
      decreases |body|
    {
      var p := SplitChunk(body);
      if p.Bad? {
        return Failure(p.error);
      }
      var group := DecodePhysicalChunk(h, p.value.typ, p.value.numItems, p.value.payload);
      if group.Failure? {
        return Failure(group.error);
      }
      ContinuesStep(all, DecodeBody(h, body), chunks, group.value, DecodeBody(h, p.rest));
      chunks, body := chunks + group.value, p.rest;
    }
    ContinuesEnd(all, chunks);
    r := Success(chunks);
  }
}
