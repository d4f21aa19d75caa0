/**
 The ghost recording: items are grouped into physical chunks by type, at most fifty to a chunk, each
 item is stored as 32-bit wraparound differences to the one before it, and a chunk is compressed.
 */
module Ghost {
  import opened Wire
  import opened Cursor
  import opened Huffman
  import Varint

  const MAX_ITEM_SIZE := 128
  const ITEMS_PER_CHUNK := 50
  const MAX_CHUNK_SIZE := 6400

  const SKIN := 0
  const CHARACTER_NO_TICK := 1
  const CHARACTER := 2
  const START_TICK := 3

  type int32 = v: int | -0x8000_0000 <= v <= 0x7FFF_FFFF
  type Fields = seq<int32>

  function Wrap(v: int): (r: int32)
    ensures IsInt32(v) ==> r == v
  {
    ToInt32(v)
  }

  function WrapAdd(a: int, b: int): int32 {
    Wrap(a + b)
  }

  function WrapSubtract(a: int, b: int): int32 {
    Wrap(a - b)
  }

  // ---------- items and their fields

  datatype NoTick = NoTick(
    x: int, y: int, velX: int, velY: int, angle: int, direction: int, weapon: int,
    hookState: int, hookX: int, hookY: int, attackTick: int)

  type SkinInts = s: seq<int> | |s| == 6 witness [0, 0, 0, 0, 0, 0]

  datatype Chunk =
    | Skin(skin: SkinInts, useCustomColor: int, colorBody: int, colorFeet: int)
    | CharacterNoTick(c: NoTick)
    | Character(c: NoTick, tick: int)
    | StartTick(tick: int)
    | Raw(typ: int, values: Fields)

  function DataType(c: Chunk): int {
    match c
    case Skin(_, _, _, _) => SKIN
    case CharacterNoTick(_) => CHARACTER_NO_TICK
    case Character(_, _) => CHARACTER
    case StartTick(_) => START_TICK
    case Raw(typ, _) => typ
  }

  function NoTickFields(c: NoTick): (f: Fields)
    ensures |f| == 11
  {
    [Wrap(c.x), Wrap(c.y), Wrap(c.velX), Wrap(c.velY), Wrap(c.angle), Wrap(c.direction),
     Wrap(c.weapon), Wrap(c.hookState), Wrap(c.hookX), Wrap(c.hookY), Wrap(c.attackTick)]
  }

  function FieldsOf(c: Chunk): Fields {
    match c
    case Skin(s, useCustomColor, body, feet) =>
      [Wrap(s[0]), Wrap(s[1]), Wrap(s[2]), Wrap(s[3]), Wrap(s[4]), Wrap(s[5]),
       Wrap(useCustomColor), Wrap(body), Wrap(feet)]
    case CharacterNoTick(c) => NoTickFields(c)
    case Character(c, tick) => NoTickFields(c) + [Wrap(tick)]
    case StartTick(tick) => [Wrap(tick)]
    case Raw(_, values) => values
  }

  function NoTickFromFields(f: Fields): NoTick
    requires |f| == 11
  {
    NoTick(f[0], f[1], f[2], f[3], f[4], f[5], f[6], f[7], f[8], f[9], f[10])
  }

  function FromFields(typ: int, f: Fields): Chunk {
    if typ == SKIN && |f| == 9 then Skin(f[..6], f[6], f[7], f[8])
    else if typ == CHARACTER_NO_TICK && |f| == 11 then CharacterNoTick(NoTickFromFields(f))
    else if typ == CHARACTER && |f| == 12 then Character(NoTickFromFields(f[..11]), f[11])
    else if typ == START_TICK && |f| == 1 then StartTick(f[0])
    else Raw(typ, f)
  }

  lemma FieldsOfFromFields(typ: int, f: Fields)
    ensures DataType(FromFields(typ, f)) == typ
    ensures FieldsOf(FromFields(typ, f)) == f
  {
    hide Wrap;
    if typ == CHARACTER && |f| == 12 {
      assert f == f[..11] + [f[11]];
    }
  }

  /** An item is canonical when its type and fields determine it. */
  predicate Canonical(c: Chunk) {
    FromFields(DataType(c), FieldsOf(c)) == c
  }

  predicate NumbersFit(c: NoTick) {
    && IsInt32(c.x) && IsInt32(c.y) && IsInt32(c.velX) && IsInt32(c.velY) && IsInt32(c.angle) && IsInt32(c.direction)
    && IsInt32(c.weapon) && IsInt32(c.hookState) && IsInt32(c.hookX) && IsInt32(c.hookY) && IsInt32(c.attackTick)
  }

  lemma NoTickRestored(c: NoTick)
    ensures NoTickFromFields(NoTickFields(c)) == c <==> NumbersFit(c)
  {
    hide Wrap;
    var d := NoTickFromFields(NoTickFields(c));
    assert d.x == Wrap(c.x) && d.y == Wrap(c.y) && d.velX == Wrap(c.velX) && d.velY == Wrap(c.velY);
    assert d.angle == Wrap(c.angle) && d.direction == Wrap(c.direction) && d.weapon == Wrap(c.weapon);
    assert d.hookState == Wrap(c.hookState) && d.hookX == Wrap(c.hookX) && d.hookY == Wrap(c.hookY);
    assert d.attackTick == Wrap(c.attackTick);
  }

  /** That is: a typed item whose numbers fit in 32 bits, or a raw item that no typed item can hold. */
  lemma CanonicalMeans(c: Chunk)
    ensures c.StartTick? ==> (Canonical(c) <==> IsInt32(c.tick))
    ensures c.CharacterNoTick? ==> (Canonical(c) <==> NumbersFit(c.c))
    ensures c.Character? ==> (Canonical(c) <==> NumbersFit(c.c) && IsInt32(c.tick))
    ensures c.Skin? ==>
      (Canonical(c) <==> (forall i :: 0 <= i < 6 ==> IsInt32(c.skin[i]))
                         && IsInt32(c.useCustomColor) && IsInt32(c.colorBody) && IsInt32(c.colorFeet))
    ensures c.Raw? ==>
      (Canonical(c) <==> !((c.typ == SKIN && |c.values| == 9) || (c.typ == CHARACTER_NO_TICK && |c.values| == 11)
                           || (c.typ == CHARACTER && |c.values| == 12) || (c.typ == START_TICK && |c.values| == 1)))
  {
    hide Wrap, NoTickFromFields, NumbersFit;
    if c.CharacterNoTick? {
      NoTickRestored(c.c);
    }
    if c.Character? {
      NoTickRestored(c.c);
      assert FieldsOf(c)[..11] == NoTickFields(c.c) && FieldsOf(c)[11] == Wrap(c.tick);
    }
    if c.Skin? {
      var f := FieldsOf(c);
      assert f[..6] == [f[0], f[1], f[2], f[3], f[4], f[5]];
      assert Canonical(c) <==> f[..6] == c.skin && f[6] == c.useCustomColor && f[7] == c.colorBody && f[8] == c.colorFeet;
      if forall i :: 0 <= i < 6 ==> IsInt32(c.skin[i]) {
        assert f[..6] == c.skin;
      }
      if f[..6] == c.skin {
        assert forall i :: 0 <= i < 6 ==> c.skin[i] == f[..6][i];
      }
    }
  }

  // ---------- one physical chunk

  function Subtract(cur: Fields, prev: Fields): Fields
    requires |cur| <= |prev|
  {
    seq(|cur|, j requires 0 <= j < |cur| => WrapSubtract(cur[j], prev[j]))
  }

  function Accumulate(prev: Fields, raw: Fields): (cur: Fields)
    requires |raw| == |prev|
    ensures |cur| == |raw|
  {
    seq(|raw|, j requires 0 <= j < |raw| => WrapAdd(prev[j], raw[j]))
  }

  /** The differences of each item to its predecessor; an item longer than its predecessor panics. */
  function Differences(prev: Fields, items: seq<Fields>): Result<Fields>
    decreases |items|
  {
    if items == [] then Success([])
    else if |items[0]| > |prev| then Failure(Panic)
    else
      var rest :- Differences(items[0], items[1..]);
      Success(Subtract(items[0], prev) + rest)
  }

  function EncodeGroup(h: Codec, typ: int, items: seq<Fields>): Result<seq<byte>> {
    if items == [] then Success([])
    else
      var diffs :- Differences(items[0], items[1..]);
      var comp := h.compress(AppendInts(items[0] + diffs));
      if |comp| > MAX_CHUNK_SIZE then Failure(BadChunk)
      else Success([typ % 0x100, |items| % 0x100, |comp| / 0x100, |comp| % 0x100] + comp)
  }

  function UnpackInts(data: seq<byte>): Result<Fields>
    decreases |data|
  {
    if data == [] then Success([])
    else
      match Varint.Decode(data)
      case Bad(e) => Failure(e)
      case Ok(v, rest) =>
        var vs :- UnpackInts(rest);
        Success([v] + vs)
  }

  /** Splits n * k numbers into n items of k fields and adds each to the item before it. */
  function Undiff(prev: Fields, ints: Fields, n: nat): (items: seq<Fields>)
    requires |ints| == n * |prev|
    ensures |items| == n && forall i :: 0 <= i < n ==> |items[i]| == |prev|
    decreases n
  {
    if n == 0 then []
    else
      var k := |prev|;
      assert |ints| == k + (n - 1) * k;
      var cur := Accumulate(prev, ints[..k]);
      [cur] + Undiff(cur, ints[k..], n - 1)
  }

  function Chunks(typ: int, items: seq<Fields>): (cs: seq<Chunk>)
    ensures |cs| == |items|
  {
    seq(|items|, i requires 0 <= i < |items| => FromFields(typ, items[i]))
  }

  function Zeros(k: nat): (z: Fields)
    ensures |z| == k
  {
    seq(k, _ => 0)
  }

  lemma QuotientExact(len: nat, n: nat)
    requires n > 0 && len % n == 0
    ensures n * (len / n) == len
  {
  }

  function DecodeGroup(h: Codec, typ: int, n: nat, payload: seq<byte>): (r: Result<seq<Chunk>>)
    ensures r.Success? ==> n > 0 && |r.value| == n
  {
    if n == 0 then Failure(BadChunk)
    else
      var packed :- h.decompress(payload);
      var ints :- UnpackInts(packed);
      if |ints| == 0 || |ints| % n != 0 then Failure(BadChunk)
      else if |ints| / n * 4 > MAX_ITEM_SIZE then Failure(BadChunk)
      else
        QuotientExact(|ints|, n);
        Success(Chunks(typ, Undiff(Zeros(|ints| / n), ints, n)))
  }

  lemma {:induction false} UnpackOfAppend(vs: Fields)
    ensures UnpackInts(AppendInts(vs)) == Success(vs)
  {
    hide Varint.Decode, Varint.PackInt;
    if vs != [] {
      UnpackOfAppend(vs[1..]);
      Varint.DecodeOfPack(vs[0], AppendInts(vs[1..]));
      assert Varint.Decode([]).Bad? by { }
      assert [vs[0]] + vs[1..] == vs;
    }
  }

  predicate SameLength(items: seq<Fields>, k: nat) {
    forall i :: 0 <= i < |items| ==> |items[i]| == k
  }

  lemma WrapAround(c: int32, p: int32)
    ensures WrapAdd(p, WrapSubtract(c, p)) == c
  {
  }

  lemma AccumulateOfSubtract(cur: Fields, prev: Fields)
    requires |cur| == |prev|
    ensures Accumulate(prev, Subtract(cur, prev)) == cur
  {
    hide WrapAdd, WrapSubtract;
    forall j | 0 <= j < |cur| ensures WrapAdd(prev[j], WrapSubtract(cur[j], prev[j])) == cur[j] {
      WrapAround(cur[j], prev[j]);
    }
  }

  lemma UndiffCons(prev: Fields, raw: Fields, rest: Fields, items: seq<Fields>)
    requires items != [] && |raw| == |prev| == |items[0]| && Accumulate(prev, raw) == items[0]
    requires |rest| == (|items| - 1) * |prev| && Undiff(items[0], rest, |items| - 1) == items[1..]
    ensures |raw + rest| == |items| * |prev| && Undiff(prev, raw + rest, |items|) == items
  {
    hide Accumulate;
    assert |raw + rest| == |prev| + (|items| - 1) * |prev|;
    assert (raw + rest)[..|prev|] == raw && (raw + rest)[|prev|..] == rest;
    assert [items[0]] + items[1..] == items;
  }

  /** Adding the differences up again gives the items back, whatever wraps around. */
  lemma {:induction false} UndiffOfDifferences(prev: Fields, items: seq<Fields>)
    requires SameLength(items, |prev|)
    ensures Differences(prev, items).Success?
    ensures |Differences(prev, items).value| == |items| * |prev|
    ensures Undiff(prev, Differences(prev, items).value, |items|) == items
    decreases |items|
  {
    if items != [] {
      UndiffOfDifferences(items[0], items[1..]);
      AccumulateOfSubtract(items[0], prev);
      UndiffCons(prev, Subtract(items[0], prev), Differences(items[0], items[1..]).value, items);
    }
  }

  lemma SubtractZeros(item: Fields)
    ensures Accumulate(Zeros(|item|), item) == item
  {
  }

  predicate UniformGroup(items: seq<Fields>) {
    items != [] && 1 <= |items[0]| <= MAX_ITEM_SIZE / 4 && SameLength(items, |items[0]|)
  }

  lemma UndiffWhole(items: seq<Fields>)
    requires UniformGroup(items)
    ensures Differences(items[0], items[1..]).Success?
    ensures var ints := items[0] + Differences(items[0], items[1..]).value;
      |ints| == |items| * |items[0]| && Undiff(Zeros(|items[0]|), ints, |items|) == items
  {
    hide Accumulate;
    UndiffOfDifferences(items[0], items[1..]);
    SubtractZeros(items[0]);
    UndiffCons(Zeros(|items[0]|), items[0], Differences(items[0], items[1..]).value, items);
  }

  lemma DecodeGroupOfEncode(h: Codec, typ: int, items: seq<Fields>)
    requires h.Lossless() && UniformGroup(items)
    ensures Differences(items[0], items[1..]).Success?
    ensures var ints := items[0] + Differences(items[0], items[1..]).value;
      DecodeGroup(h, typ, |items|, h.compress(AppendInts(ints))) == Success(Chunks(typ, items))
  {
    hide AppendInts, UnpackInts, Undiff, Differences, Chunks, Zeros;
    UndiffWhole(items);
    var ints := items[0] + Differences(items[0], items[1..]).value;
    UnpackOfAppend(ints);
    Quotient(|items|, |items[0]|);
  }

  lemma Quotient(n: nat, k: nat)
    requires n > 0
    ensures n * k % n == 0 && n * k / n == k
  {
    var p := n * k;
    assert p == n * (p / n) + p % n && 0 <= p % n < n;
    UniqueQuotient(n, k, p / n, p % n);
  }

  lemma UniqueQuotient(n: int, k: int, q: int, r: int)
    requires n * k == n * q + r && 0 <= r < n
    ensures q == k && r == 0
  {
    assert n * (k - q) == r;
    AtLeast(n, k - q);
    AtLeast(n, q - k);
  }

  lemma AtLeast(n: int, m: int)
    ensures n > 0 && m >= 1 ==> n * m >= n
  {
  }
}
