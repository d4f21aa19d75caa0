/**
 The formats themselves, as bytes: what a reader and a writer that agree with each other could still both get
 wrong, such as the order of two fields, the number of a marker or the meaning of a bit.
 */
module Formats {
  import opened Wire
  import opened Cursor
  import opened Huffman
  import Varint
  import ChunkCodec
  import Scanners
  import Download
  import Snapshot
  import SnapWindow
  import Assembly
  import Teehistorian
  import Ghost
  import Demo

  // ---------- integers

  predicate Small(v: int) {
    -64 <= v < 64
  }

  /** Small integers take one byte: six bits and the sign. */
  function OneByte(v: int): byte
    requires Small(v)
  {
    if v < 0 then 0x3F - v else v
  }

  lemma IntExamples()
    ensures Varint.PackInt(0) == [0] && Varint.PackInt(63) == [0x3F] && Varint.PackInt(-1) == [0x40]
    ensures Varint.PackInt(-64) == [0x7F] && Varint.PackInt(64) == [0x80, 0x01] && Varint.PackInt(-65) == [0xC0, 0x01]
    ensures Varint.PackInt(0x5_0007) == [0x87, 0x80, 0x28]
    ensures Varint.PackInt(0x7FFF_FFFF) == [0xBF, 0xFF, 0xFF, 0xFF, 0x0F] == Varint.PackInt(0x1_0000_0000)
    ensures Varint.PackInt(-0x8000_0000) == [0xFF, 0xFF, 0xFF, 0xFF, 0x0F]
  {
    assert Varint.EncodeTail(0x1FF_FFFF) == [0xFF] + Varint.EncodeTail(0x3_FFFF);
    assert Varint.EncodeTail(0x3_FFFF) == [0xFF] + Varint.EncodeTail(0x7FF);
    assert Varint.EncodeTail(0x7FF) == [0xFF] + Varint.EncodeTail(0xF);
  }

  lemma {:induction false} SmallInts(vs: seq<int>)
    requires forall i :: 0 <= i < |vs| ==> Small(vs[i])
    ensures AppendInts(vs) == seq(|vs|, i requires 0 <= i < |vs| => OneByte(vs[i]))
  {
    if vs != [] {
      SmallInts(vs[1..]);
      assert Varint.PackInt(vs[0]) == [OneByte(vs[0])];
    }
  }

  // ---------- chunk headers and requests

  /** Bit 6 of the first byte is the vital flag, bit 7 the resend flag; both splits share out the same ten bits. */
  lemma VitalHeaderExamples()
    ensures ChunkCodec.PackHeader(ChunkCodec.Header(true, false, 100, 300), 6) == [0x41, 0x64, 0x2C]
    ensures ChunkCodec.PackHeader(ChunkCodec.Header(true, true, 100, 300), 4) == [0xC6, 0x44, 0x2C]
  {
    hide ChunkCodec.HighBits;
    assert ChunkCodec.HighBits(75, 6) == 0x40 && ChunkCodec.HighBits(75, 4) == 0x40 by {
      HighBitsExample();
    }
  }

  lemma HighBitsExample()
    ensures ChunkCodec.HighBits(75, 6) == 0x40 && ChunkCodec.HighBits(75, 4) == 0x40
  {
  }

  lemma PlainHeaderExamples()
    ensures ChunkCodec.PackHeader(ChunkCodec.Header(false, true, 100, 300), 6) == [0x81, 0x24]
    ensures ChunkCodec.PackHeader(ChunkCodec.Header(false, false, 100, 300), 4) == [0x06, 0x04]
  {
  }

  lemma RequestHeader(seqNo: int, b1: byte, b2: byte)
    requires b1 == 1 + ChunkCodec.HighBits(seqNo / 4, 6) && b2 == seqNo % 0x100
    ensures ChunkCodec.PackHeader(ChunkCodec.Header(true, false, 1, seqNo), 6) == [0x40, b1, b2]
  {
  }

  /** A request for map data is a vital of one byte; map data is what starts with a seven. */
  lemma RequestExamples()
    ensures Download.RequestBytes(1) == [0x40, 0x01, 0x01, 0x2F]
    ensures Download.RequestBytes(300) == [0x40, 0x41, 0x2C, 0x2F]
    ensures Download.IsMapData([7, 5]) && !Download.IsMapData([6, 5]) && !Download.IsMapData([5, 5])
  {
    hide ChunkCodec.PackHeader, Varint.PackInt;
    assert Varint.PackInt(2 * 23 + 1) == [0x2F] by {
      SmallInts([47]);
      assert [47][1..] == [] && Varint.PackInt(47) + [] == Varint.PackInt(47);
    }
    RequestHeader(1, 1, 1);
    RequestHeader(300, 0x41, 0x2C);
  }

  // ---------- snapshots

  lemma ReadList(vs: seq<int>, more: seq<int>)
    requires forall i :: 0 <= i < |vs| ==> IsInt32(vs[i])
    ensures ReadInts(AppendInts(vs + more), |vs|) == Ok(vs, AppendInts(more))
    ensures Snapshot.ReadUpTo(AppendInts(vs + more), |vs|) == (vs, AppendInts(more))
  {
    hide AppendInts, ReadInts, Snapshot.ReadUpTo;
    AppendIntsJoin(vs, more);
    ReadIntsOfAppend(vs, AppendInts(more));
    Snapshot.ReadUpToAll(AppendInts(vs + more), |vs|);
  }

  lemma ReadHead(typeID: int, id: int, more: seq<int>, sizes: int -> int, size: int, rest: seq<int>)
    requires IsInt32(typeID) && IsInt32(id) && IsInt32(size)
    requires if sizes(typeID) >= 0 then size == sizes(typeID) && more == rest else more == [size] + rest
    ensures Snapshot.ReadHead(AppendInts([typeID, id] + more), sizes)
         == Ok(Snapshot.Head(Snapshot.Key(typeID, id), size), AppendInts(rest))
  {
    hide Varint.PackInt, Varint.Decode;
    NextInt(typeID, [id] + more);
    NextInt(id, more);
    assert [typeID] + ([id] + more) == [typeID, id] + more;
    if sizes(typeID) < 0 {
      NextInt(size, rest);
    } else {
      assert Snapshot.ReadSize(AppendInts(more), typeID, sizes) == Ok(size, AppendInts(rest));
    }
  }

  lemma NextInt(v: int, more: seq<int>)
    requires IsInt32(v)
    ensures Varint.Decode(AppendInts([v] + more)) == Ok(v, AppendInts(more))
  {
    hide Varint.PackInt, Varint.Decode;
    Varint.DecodeOfPack(v, AppendInts(more));
    assert ([v] + more)[1..] == more;
    assert AppendInts([v] + more) == Varint.PackInt(v) + AppendInts(more);
  }

  /** An update: its type and id, its size unless that is known from the type, and its differences. */
  lemma UpdateLayout(key: Snapshot.Key, vs: seq<int>, more: seq<int>, n: nat, sizes: int -> int, stale: seq<int>)
    requires IsInt32(key.typeID) && IsInt32(key.id) && IsInt32(|vs|) && forall i :: 0 <= i < |vs| ==> IsInt32(vs[i])
    requires sizes(key.typeID) < 0 || sizes(key.typeID) == |vs|
    ensures var size := if sizes(key.typeID) < 0 then [|vs|] else [];
      var r := Snapshot.ReadUpdates(AppendInts([key.typeID, key.id] + (size + (vs + more))), n + 1, sizes, stale);
      var others := Snapshot.ReadUpdates(AppendInts(more), n, sizes, Snapshot.Overwrite(stale, vs, |vs|));
      if others.Failure? then r == Failure(others.error)
      else r == Success([Snapshot.Update(key, vs)] + others.value)
  {
    hide AppendInts, Snapshot.ReadHead, Snapshot.ReadUpTo, Snapshot.Buffer;
    var size := if sizes(key.typeID) < 0 then [|vs|] else [];
    if size == [] {
      assert size + (vs + more) == vs + more;
    }
    ReadHead(key.typeID, key.id, size + (vs + more), sizes, |vs|, vs + more);
    ReadList(vs, more);
    assert Snapshot.Overwrite(stale, vs, |vs|)[..|vs|] == vs;
  }

  /** An update of type 9, whose size is in the stream, and one of type 10, whose size is known to be one. */
  lemma UpdatesExample(sizes: int -> int, stale: seq<int>)
    requires sizes(9) < 0 && sizes(10) == 1
    ensures Snapshot.ReadUpdates(AppendInts([9, 4, 2, 11, -1, 10, 5, 12]), 2, sizes, stale)
         == Success([Snapshot.Update(Snapshot.Key(9, 4), [11, -1]), Snapshot.Update(Snapshot.Key(10, 5), [12])])
  {
    hide AppendInts, Snapshot.ReadUpdates, Snapshot.Overwrite;
    var vs := [11, -1];
    var buf := Snapshot.Overwrite(stale, vs, |vs|);
    UpdateLayout(Snapshot.Key(9, 4), vs, [10, 5, 12], 1, sizes, stale);
    assert [|vs|] == [2];
    assert [9, 4] + ([2] + ([11, -1] + [10, 5, 12])) == [9, 4, 2, 11, -1, 10, 5, 12];
    UpdateLayout(Snapshot.Key(10, 5), [12], [], 0, sizes, buf);
    assert [10, 5] + ([] + ([12] + [])) == [10, 5, 12];
    Snapshot.NoUpdates(AppendInts([]), sizes, Snapshot.Overwrite(buf, [12], 1));
    var one, two := Snapshot.Update(Snapshot.Key(9, 4), vs), Snapshot.Update(Snapshot.Key(10, 5), [12]);
    assert [two] + [] == [two] && [one] + [two] == [one, two];
  }

  lemma KeyExample()
    ensures Snapshot.KeysOf([0x5_0007]) == [Snapshot.Key(5, 7)] && Snapshot.KeyOf(-1) == Snapshot.Key(0xFFFF, 0xFFFF)
  {
  }

  /** The numbers of deleted and updated items, and one unused; the deleted keys; type, id, size and differences. */
  lemma DeltaExample(sizes: int -> int, stale: seq<int>)
    requires sizes(9) < 0 && sizes(10) == 1
    ensures Snapshot.ParseDelta(AppendInts([1, 2, 0, 0x5_0007, 9, 4, 2, 11, -1, 10, 5, 12]), sizes, stale)
         == Success(Snapshot.Delta([Snapshot.Key(5, 7)],
                                   [Snapshot.Update(Snapshot.Key(9, 4), [11, -1]),
                                    Snapshot.Update(Snapshot.Key(10, 5), [12])]))
  {
    hide AppendInts, ReadInts, Snapshot.ReadUpdates, Snapshot.KeysOf, Snapshot.ReadUpTo;
    var updates := [9, 4, 2, 11, -1, 10, 5, 12];
    assert [1, 2, 0] + ([0x5_0007] + updates) == [1, 2, 0, 0x5_0007, 9, 4, 2, 11, -1, 10, 5, 12];
    ReadList([1, 2, 0], [0x5_0007] + updates);
    ReadList([0x5_0007], updates);
    UpdatesExample(sizes, stale);
    KeyExample();
  }

  /** Counts below zero count as none. */
  lemma NegativeCountsExample(sizes: int -> int, stale: seq<int>)
    ensures Snapshot.ParseDelta(AppendInts([-1, -1, 0]), sizes, stale) == Success(Snapshot.Delta([], []))
  {
    hide AppendInts, ReadInts, Snapshot.ReadUpTo;
    var none: seq<int> := [];
    assert [-1, -1, 0] + none == [-1, -1, 0] && none + none == none;
    ReadList([-1, -1, 0], none);
    ReadList(none, none);
    Snapshot.NoUpdates(AppendInts([]), sizes, stale);
    assert Snapshot.KeysOf([]) == [];
  }

  /** Differences are added to the base's fields, which are cut to size or extended with zeros. */
  lemma MergeExamples()
    ensures Snapshot.Merge([5, 7], [10, -20]) == [15, -13]
    ensures Snapshot.Merge([5, 7, 9], [1, 2]) == [6, 9] && Snapshot.Merge([5], [1, 2]) == [6, 2]
    ensures Snapshot.Merge([], [4]) == [4] && Snapshot.Merge([1], [4]) == [5]
  {
  }

  lemma ApplyTwo(base: Snapshot.Snap, k: Snapshot.Key, u: Snapshot.Update, v: Snapshot.Update)
    ensures Snapshot.Apply(base, Snapshot.Delta([k], [u, v]))
         == (base - {k})[u.key := Snapshot.Merge(Snapshot.At(base, u.key), u.diffs)]
                        [v.key := Snapshot.Merge(Snapshot.At(base, v.key), v.diffs)]
  {
    hide Snapshot.Apply, Snapshot.Merge, Snapshot.At;
    var d := Snapshot.Delta([k], [u, v]);
    Snapshot.PutAllIsApply(base, d);
    assert Snapshot.DeletedKeys(d) == {k} by {
      assert d.deleted[0] == k;
    }
    var us, acc := [u, v], base - {k};
    assert us[..1] == [u] && us[..1][..0] == [];
    assert Snapshot.PutAll(acc, base, us[..1]) == acc[u.key := Snapshot.Merge(Snapshot.At(base, u.key), u.diffs)];
  }

  /**
   Deleted items are gone, updated ones changed, new ones there, all others as they were. An update counts from the
   base, also when the item is deleted as well, or has been updated before.
   */
  lemma ApplyExamples(k: Snapshot.Key, l: Snapshot.Key, m: Snapshot.Key, n: Snapshot.Key)
    requires k != l && k != m && k != n && l != m && l != n && m != n
    ensures var base: Snapshot.Snap := map[k := [1], l := [5, 7], m := [3]];
      && Snapshot.Apply(base, Snapshot.Delta([k], [Snapshot.Update(l, [10, -20]), Snapshot.Update(n, [4])]))
         == map[l := [15, -13], m := [3], n := [4]]
      && Snapshot.Apply(base, Snapshot.Delta([k], [Snapshot.Update(k, [2]), Snapshot.Update(k, [4])]))
         == map[k := [5], l := [5, 7], m := [3]]
  {
    hide Snapshot.Apply, Snapshot.Merge;
    var base: Snapshot.Snap := map[k := [1], l := [5, 7], m := [3]];
    MergeExamples();
    ApplyTwo(base, k, Snapshot.Update(l, [10, -20]), Snapshot.Update(n, [4]));
    ApplyTwo(base, k, Snapshot.Update(k, [2]), Snapshot.Update(k, [4]));
  }

  /** A buffer that was never filled gives zeros for what the payload does not hold. */
  lemma FreshBufferExample()
    ensures Snapshot.Overwrite([], [11], 3) == [11, 0, 0]
  {
  }

  /** A payload without bytes carries the base forward; the base of a delta is so many ticks before it. */
  lemma BaseExamples(base: Snapshot.Snap, sizes: int -> int, stale: seq<int>)
    ensures Snapshot.ApplyBytes(base, [], sizes, stale) == Success(base)
    ensures SnapWindow.Base(map[90 := base], SnapWindow.Packet(100, 10, [])) == base
    ensures SnapWindow.Base(map[90 := base, 101 := base], SnapWindow.Packet(100, -1, [])) == map[]
  {
  }

  /** Tick, delta tick, checksum, size; in parts the number of parts and the index come before the checksum. */
  lemma SnapMessageExamples(rest: seq<byte>)
    ensures Assembly.ReadSingle(AppendInts([100, 90, 77, 2]) + ([1, 2] + rest))
         == Ok(SnapWindow.Packet(100, 90, [1, 2]), rest)
    ensures Assembly.ReadEmpty(AppendInts([100, 90]) + rest) == Ok(SnapWindow.Packet(100, 90, []), rest)
    ensures Assembly.ReadPart(AppendInts([100, 90, 3, 1, 77, 2]) + ([1, 2] + rest))
         == Ok(Assembly.Part(100, 90, 3, 1, [1, 2]), rest)
  {
    hide AppendInts, ReadInts;
    ReadIntsOfAppend([100, 90, 77, 2], [1, 2] + rest);
    ReadIntsOfAppend([100, 90], rest);
    ReadIntsOfAppend([100, 90, 3, 1, 77, 2], [1, 2] + rest);
    ReadRawOfAppend([1, 2], rest);
  }

  // ---------- recordings

  /** The integers that open a record, when they are small. */
  lemma Opens(rec: Teehistorian.Record, head: seq<int>)
    requires Teehistorian.Head(rec) == head && forall i :: 0 <= i < |head| ==> Small(head[i])
    ensures Teehistorian.Print(rec)
         == seq(|head|, i requires 0 <= i < |head| => OneByte(head[i])) + Teehistorian.Payload(rec)
  {
    hide AppendInts, Teehistorian.Head, Teehistorian.Payload;
    SmallInts(head);
  }

  lemma PlayerExamples()
    ensures Teehistorian.Print(Teehistorian.PlayerDiff(1, 2, -1)) == [1, 2, 0x40]
    ensures Teehistorian.Print(Teehistorian.TickSkip(5)) == [0x41, 5]
    ensures Teehistorian.Print(Teehistorian.PlayerNew(1, 2, 3)) == [0x42, 1, 2, 3]
    ensures Teehistorian.Print(Teehistorian.PlayerOld(1)) == [0x43, 1]
    ensures Teehistorian.Print(Teehistorian.Join(1)) == [0x47, 1]
    ensures Teehistorian.Print(Teehistorian.Finish) == [0x40]
  {
    hide AppendInts, Teehistorian.Print;
    Opens(Teehistorian.PlayerDiff(1, 2, -1), [1, 2, -1]);
    Opens(Teehistorian.TickSkip(5), [-2, 5]);
    Opens(Teehistorian.PlayerNew(1, 2, 3), [-3, 1, 2, 3]);
    Opens(Teehistorian.PlayerOld(1), [-4, 1]);
    Opens(Teehistorian.Join(1), [-8, 1]);
    Opens(Teehistorian.Finish, [-1]);
  }

  lemma InputExamples(i: Teehistorian.Input)
    requires i == [2, 3, 4, 5, 6, 7, 8, 9, 10, 11]
    ensures Teehistorian.Print(Teehistorian.InputDiff(1, i)) == [0x44, 1, 2, 3, 4, 5, 6, 7, 8, 9, 10, 11]
    ensures Teehistorian.Print(Teehistorian.InputNew(1, i)) == [0x45, 1, 2, 3, 4, 5, 6, 7, 8, 9, 10, 11]
  {
    hide AppendInts, Teehistorian.Print;
    Opens(Teehistorian.InputDiff(1, i), [-5, 1, 2, 3, 4, 5, 6, 7, 8, 9, 10, 11]);
    Opens(Teehistorian.InputNew(1, i), [-6, 1, 2, 3, 4, 5, 6, 7, 8, 9, 10, 11]);
  }

  lemma MessageExamples()
    ensures Teehistorian.Print(Teehistorian.Message(1, [9, 8])) == [0x46, 1, 2, 9, 8]
    ensures Teehistorian.Print(Teehistorian.Drop(1, [104])) == [0x48, 1, 104, 0]
  {
    hide AppendInts, Teehistorian.Print;
    Opens(Teehistorian.Message(1, [9, 8]), [-7, 1, 2]);
    Opens(Teehistorian.Drop(1, [104]), [-9, 1]);
  }

  lemma CommandExample()
    ensures Teehistorian.Print(Teehistorian.ConsoleCommand(1, 2, [97], [[98], [99]]))
         == [0x49, 1, 2, 97, 0, 2, 98, 0, 99, 0]
  {
    hide AppendInts, Teehistorian.Print;
    SmallInts([2]);
    assert AppendStrs([[98], [99]]) == [98, 0, 99, 0] by {
      assert [[98], [99]][1..] == [[99]];
    }
    Opens(Teehistorian.ConsoleCommand(1, 2, [97], [[98], [99]]), [-10, 1, 2]);
  }

  lemma ExtensionExample(uuid: Teehistorian.UUID)
    ensures Teehistorian.Print(Teehistorian.Ex(uuid, [7])) == [0x4A] + uuid + [1, 7]
  {
    hide AppendInts, Teehistorian.Print;
    SmallInts([1]);
    Opens(Teehistorian.Ex(uuid, [7]), [-11]);
  }

  /** The group's type and number of items, and the size of the payload in two bytes, high byte first. */
  lemma GroupHeader(h: Codec, typ: int, items: seq<Ghost.Fields>)
    requires items != [] && Ghost.EncodeGroup(h, typ, items).Success?
    ensures var s := Ghost.EncodeGroup(h, typ, items).value;
      && |s| >= 4 && (0 <= typ < 0x100 ==> s[0] == typ) && (|items| < 0x100 ==> s[1] == |items|)
      && s[2] as int * 0x100 + s[3] == |s| - 4 <= 6400
  {
    hide AppendInts;
  }

  /** The first item as it is, then what each item has more than the one before. */
  lemma GroupExample(h: Codec, payload: seq<byte>)
    requires payload == h.compress([5, 2, 0x40]) && |payload| <= 6400
    ensures Ghost.EncodeGroup(h, 3, [[5], [7], [6]])
         == Success([3, 3, |payload| / 0x100, |payload| % 0x100] + payload)
  {
    hide AppendInts;
    var five, seven, six: Ghost.Fields := [5], [7], [6];
    assert Ghost.Subtract(six, seven) + [] == [-1] && Ghost.Subtract(seven, five) + [-1] == [2, -1];
    assert [six][1..] == [] && [seven, six][1..] == [six] && [five, seven, six][1..] == [seven, six];
    assert Ghost.Differences(six, []) == Success([]);
    assert Ghost.Differences(seven, [six]) == Success([-1]);
    assert Ghost.Differences(five, [seven, six]) == Success([2, -1]);
    assert five + [2, -1] == [5, 2, -1] && [five, seven, six] == [[5], [7], [6]];
    SmallInts([5, 2, -1]);
    assert AppendInts([5, 2, -1]) == [5, 2, 0x40];
  }

  lemma ItemExamples()
    ensures var c := Ghost.NoTick(1, 2, 3, 4, 5, 6, 7, 8, 9, 10, 11);
      && Ghost.FieldsOf(Ghost.CharacterNoTick(c)) == [1, 2, 3, 4, 5, 6, 7, 8, 9, 10, 11]
      && Ghost.FieldsOf(Ghost.Character(c, 12)) == [1, 2, 3, 4, 5, 6, 7, 8, 9, 10, 11, 12]
      && Ghost.DataType(Ghost.CharacterNoTick(c)) == 1 && Ghost.DataType(Ghost.Character(c, 12)) == 2
    ensures Ghost.FieldsOf(Ghost.Skin([1, 2, 3, 4, 5, 6], 7, 8, 9)) == [1, 2, 3, 4, 5, 6, 7, 8, 9]
    ensures Ghost.DataType(Ghost.Skin([1, 2, 3, 4, 5, 6], 7, 8, 9)) == 0
    ensures Ghost.FieldsOf(Ghost.StartTick(1)) == [1] && Ghost.DataType(Ghost.StartTick(1)) == 3
  {
  }

  /** Bit 7 marks a tick, bit 6 a keyframe, bit 5 a small increase; a whole tick has its high byte first. */
  lemma MarkerExamples()
    ensures Demo.EncodeMarker(0x0102_0304, true, 7) == [0xC0, 1, 2, 3, 4]
    ensures Demo.EncodeMarker(5, false, -1) == [0x80, 0, 0, 0, 5]
    ensures Demo.EncodeMarker(7, false, 5) == [0xA2] && Demo.EncodeMarker(36, false, 5) == [0xBF]
    ensures Demo.EncodeMarker(37, false, 5) == [0x80, 0, 0, 0, 37]
  {
  }

  /** A size below thirty is in the head, a larger one in one or two more bytes, low byte first. */
  lemma DataExamples()
    ensures Demo.SizeHead(1, 29) == [0x3D] && Demo.SizeHead(2, 30) == [0x5E, 30]
    ensures Demo.SizeHead(3, 0xFF) == [0x7E, 0xFF] && Demo.SizeHead(3, 0x1FE) == [0x7F, 0xFE, 0x01]
  {
  }
}
