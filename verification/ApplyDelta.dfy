/**
 applyDelta on the heap: items whose fields are slices of shared arrays, working buffers that are reused
 from call to call, an index from keys to positions, and one backing array for all updated fields. The
 result is proved to be, as a map, what Snapshot.ApplyBytes says.
 */
module ApplyDelta {
  import opened Wire
  import opened Cursor
  import opened Spec = Snapshot
  import Varint

  /** A slice of ints: a stretch of an array that other slices may share. */
  datatype Slice = Slice(arr: array<int>, off: nat, len: nat) {
    predicate InBounds() {
      off + len <= arr.Length
    }

    function Values(): (vs: seq<int>)
      requires InBounds()
      reads arr
      ensures |vs| == len
    {
      arr[off..off + len]
    }

    predicate Apart(other: Slice) {
      arr != other.arr || off + len <= other.off || other.off + other.len <= off
    }
  }

  datatype Item = Item(key: Key, fields: Slice)

  ghost function Arrays(items: seq<Item>): set<object> {
    set i | 0 <= i < |items| :: items[i].fields.arr as object
  }

  ghost predicate InBounds(items: seq<Item>) {
    forall i :: 0 <= i < |items| ==> items[i].fields.InBounds()
  }

  ghost predicate UniqueKeys(items: seq<Item>) {
    forall i, j :: 0 <= i < j < |items| ==> items[i].key != items[j].key
  }

  ghost predicate HasKey(items: seq<Item>, k: Key) {
    exists i :: 0 <= i < |items| && items[i].key == k
  }

  ghost predicate ShowsItem(item: Item, snap: Snap)
    reads item.fields.arr
  {
    item.fields.InBounds() && item.key in snap && item.fields.Values() == snap[item.key]
  }

  /** The items are this map: one item for each of its keys, with its fields. */
  ghost predicate Shows(items: seq<Item>, snap: Snap)
    reads Arrays(items)
  {
    && UniqueKeys(items)
    && (forall i :: 0 <= i < |items| ==> ShowsItem(items[i], snap))
    && forall k :: k in snap ==> HasKey(items, k)
  }

  /** The map that the items are. */
  ghost function MapOf(items: seq<Item>): (snap: Snap)
    requires InBounds(items) && UniqueKeys(items)
    reads Arrays(items)
    ensures Shows(items, snap)
  {
    var snap := map i | 0 <= i < |items| :: items[i].key := items[i].fields.Values();
    assert Shows(items, snap) by {
      forall k | k in snap ensures HasKey(items, k) {
        var i :| 0 <= i < |items| && items[i].key == k;
      }
    }
    snap
  }

  lemma ShowsOneMap(items: seq<Item>, a: Snap, b: Snap)
    requires Shows(items, a) && Shows(items, b)
    ensures a == b
  {
    forall k ensures (k in a <==> k in b) && (k in a ==> a[k] == b[k]) {
      if HasKey(items, k) {
        var i :| 0 <= i < |items| && items[i].key == k;
        assert ShowsItem(items[i], a) && ShowsItem(items[i], b);
      }
    }
  }

  lemma SetFields(items: seq<Item>, snap: Snap, j: nat, fields: Slice)
    requires Shows(items, snap) && j < |items| && fields.InBounds()
    ensures Shows(items[j := Item(items[j].key, fields)], snap[items[j].key := fields.Values()])
  {
    var key := items[j].key;
    var changed, snap' := items[j := Item(key, fields)], snap[key := fields.Values()];
    forall i | 0 <= i < |items| ensures ShowsItem(changed[i], snap') && changed[i].key == items[i].key {
      assert ShowsItem(items[i], snap);
      assert i < j ==> items[i].key != key;
      assert j < i ==> items[i].key != key;
    }
    forall k | k in snap' ensures HasKey(changed, k) {
      assert HasKey(items, k);
      var i :| 0 <= i < |items| && items[i].key == k;
      assert changed[i].key == k;
    }
  }

  lemma AppendItem(items: seq<Item>, snap: Snap, item: Item)
    requires Shows(items, snap) && item.key !in snap && item.fields.InBounds()
    ensures Shows(items + [item], snap[item.key := item.fields.Values()])
  {
    var more, snap' := items + [item], snap[item.key := item.fields.Values()];
    forall i | 0 <= i < |more| ensures ShowsItem(more[i], snap') && (i < |items| ==> more[i].key != item.key) {
      assert i < |items| ==> ShowsItem(items[i], snap);
    }
    forall i, j | 0 <= i < j < |more| ensures more[i].key != more[j].key {
      assert i < |items| && (j < |items| ==> items[i].key != items[j].key);
    }
    forall k | k in snap' ensures HasKey(more, k) {
      if k in snap {
        assert HasKey(items, k);
        var i :| 0 <= i < |items| && items[i].key == k;
        assert more[i].key == k;
      } else {
        assert more[|items|].key == k;
      }
    }
  }

  class TickSnap {
    const tick: int
    var items: seq<Item>

    constructor (tick: int, items: seq<Item>)
      ensures this.tick == tick && this.items == items
    {
      this.tick, this.items := tick, items;
    }

    ghost predicate Valid()
      reads this
    {
      InBounds(items) && UniqueKeys(items)
    }

    ghost function View(): (snap: Snap)
      requires Valid()
      reads this, Arrays(items)
      ensures Shows(items, snap)
    {
      MapOf(items)
    }
  }

  // ---------- the pooled working buffers

  datatype Meta = Meta(key: Key, off: nat, size: nat)

  /** Every key of the items leads to its position. */
  ghost predicate Indexes(idx: map<Key, nat>, items: seq<Item>) {
    && (forall i :: 0 <= i < |items| ==> items[i].key in idx)
    && forall k :: k in idx ==> idx[k] < |items| && items[idx[k]].key == k
  }

  /** The updates laid out one after the other in `flat`, each counted from the base. */
  ghost predicate LaidOut(flat: seq<int>, upds: seq<Meta>, base: Snap, us: seq<Update>) {
    && |upds| == |us|
    && (forall i :: 0 <= i < |us| ==> Holds(flat, upds[i], base, us[i]))
    && forall i, j :: 0 <= i < j < |upds| ==> upds[i].off + upds[i].size <= upds[j].off
  }

  ghost predicate Holds(flat: seq<int>, m: Meta, base: Snap, u: Update) {
    && m.key == u.key && m.off + m.size <= |flat|
    && flat[m.off..m.off + m.size] == Merge(At(base, u.key), u.diffs)
  }

  lemma HoldsStill(flat: seq<int>, more: seq<int>, m: Meta, base: Snap, u: Update)
    requires Holds(flat, m, base, u)
    ensures Holds(flat + more, m, base, u)
  {
    hide Merge;
    assert (flat + more)[m.off..m.off + m.size] == flat[m.off..m.off + m.size];
  }

  lemma LayOutNext(flat: seq<int>, upds: seq<Meta>, base: Snap, us: seq<Update>, u: Update)
    requires LaidOut(flat, upds, base, us)
    ensures LaidOut(flat + Merge(At(base, u.key), u.diffs), upds + [Meta(u.key, |flat|, |u.diffs|)], base, us + [u])
  {
    hide Merge;
    var fields, m := Merge(At(base, u.key), u.diffs), Meta(u.key, |flat|, |u.diffs|);
    assert Holds(flat + fields, m, base, u);
    forall i | 0 <= i < |us| ensures Holds(flat + fields, upds[i], base, us[i]) && upds[i].off + upds[i].size <= |flat| {
      assert Holds(flat, upds[i], base, us[i]);
      HoldsStill(flat, fields, upds[i], base, us[i]);
    }
  }

  /** The whole read is what has been read so far and what is still to be read. */
  ghost predicate ReadsOn(all: (seq<int>, seq<byte>), read: seq<int>, s: seq<byte>, n: nat) {
    all == (read + ReadUpTo(s, n).0, ReadUpTo(s, n).1)
  }

  lemma ReadOne(all: (seq<int>, seq<byte>), read: seq<int>, s: seq<byte>, n: nat)
    requires n > 0 && ReadsOn(all, read, s, n)
    ensures var d := Varint.Decode(s);
      if d.Ok? then ReadsOn(all, read + [d.value], d.rest, n - 1) else ReadsOn(all, read, s, 0)
  {
    hide Varint.Decode;
    var d := Varint.Decode(s);
    if d.Ok? {
      var later := ReadUpTo(d.rest, n - 1).0;
      assert read + ([d.value] + later) == read + [d.value] + later;
    }
  }

  lemma ReadNone(all: (seq<int>, seq<byte>), read: seq<int>, s: seq<byte>)
    requires ReadsOn(all, read, s, 0)
    ensures all == (read, s)
  {
    assert read + [] == read;
  }

  lemma OverwriteOne(read: seq<int>, before: seq<int>, f: nat, v: int)
    requires |read| == f < |before|
    ensures (read + before[f..])[f := v] == read + [v] + before[f + 1..]
  {
  }

  class Scratch {
    var base: map<Key, Slice>
    var deleted: set<Key>
    var idx: map<Key, nat>
    const u: Unpacker
    var df: array<int>
    var flat: seq<int>
    var upds: seq<Meta>

    constructor ()
      ensures Clean() && fresh(u) && fresh(df)
    {
      base, deleted, idx, flat, upds := map[], {}, map[], [], [];
      u := new Unpacker([]);
      df := new int[0];
    }

    /** What holds of every scratch in the pool: the lookup tables are empty. */
    predicate Clean()
      reads this
    {
      base == map[] && deleted == {} && idx == map[]
    }

    ghost function BaseArrays(): set<object>
      reads `base
    {
      set k | k in base :: base[k].arr as object
    }

    /** The lookup table for the base holds exactly the items of the base. */
    ghost predicate Knows(snap: Snap)
      reads `base, BaseArrays()
    {
      && (forall k :: k in snap ==> k in base)
      && forall k :: k in base ==> ShowsItem(Item(k, base[k]), snap)
    }

    ghost predicate BufferApart()
      reads this
    {
      df !in BaseArrays()
    }

    method Clear()
      modifies `base, `deleted, `idx
      ensures Clean()
    {
      base, deleted, idx := map[], {}, map[];
    }

    /** A buffer of at least n ints. An old buffer that is long enough keeps its contents. */
    method DeltaBuf(n: nat)
      modifies `df
      ensures df[..] == Buffer(old(df[..]), n)
      ensures df == old(df) || fresh(df)
    {
      if df.Length < n {
        df := new int[n](_ => 0);
      }
    }

    method LoadBase(items: seq<Item>, ghost snap: Snap)
      requires base == map[] && Shows(items, snap) && df !in Arrays(items)
      modifies `base
      ensures Knows(snap) && BufferApart()
    {
      hide UniqueKeys, ShowsItem;
      for i := 0 to |items|
        invariant forall k :: k in base ==> ShowsItem(Item(k, base[k]), snap) && base[k].arr != df
        invariant forall j :: 0 <= j < i ==> items[j].key in base
      {
        assert ShowsItem(items[i], snap) && items[i].fields.arr in Arrays(items);
        assert items[i] == Item(items[i].key, items[i].fields);
        base := base[items[i].key := items[i].fields];
      }
      forall k | k in snap ensures k in base {
        assert HasKey(items, k);
      }
    }

    /** The deleted keys, packed as type and id into one int each. */
    method ReadDeleted(n: int) returns (failed: Option<Error>)
      requires u.Valid() && deleted == {}
      modifies `deleted, u
      ensures u.Valid()
      ensures match ReadInts(old(u.Rest()), Count(n))
        case Bad(e) => failed == Some(e)
        case Ok(keys, rest) => failed == None && u.Rest() == rest && forall k :: k in deleted <==> k in KeysOf(keys)
    {
      hide Varint.Decode;
      ghost var all, keys := ReadInts(u.Rest(), Count(n)), [];
      assert all.Ok? ==> [] + all.value == all.value;
      for i := 0 to Count(n)
        invariant u.Valid() && |keys| == i
        invariant Collects(all, ReadInts(u.Rest(), Count(n) - i), keys)
        invariant forall k :: k in deleted <==> k in KeysOf(keys)
      {
        ghost var before := u.Rest();
        var key := u.NextInt();
        if key.Failure? {
          return Some(key.error);
        }
        CollectInt(all, before, Count(n) - i, keys);
        deleted := deleted + {Key(key.value / 0x1_0000 % 0x1_0000, key.value % 0x1_0000)};
        assert KeysOf(keys + [key.value]) == KeysOf(keys) + [KeyOf(key.value)];
        keys := keys + [key.value];
      }
      assert keys + [] == keys;
      failed := None;
    }

    /** The base's items that are not deleted, shared as they are, and the index over them. */
    method CarryForward(items: seq<Item>, ghost snap: Snap) returns (result: seq<Item>)
      requires idx == map[] && Shows(items, snap)
      modifies `idx
      ensures Shows(result, snap - deleted) && Indexes(idx, result)
      ensures forall i :: 0 <= i < |result| ==> result[i] in items
    {
      hide Shows, Indexes, Carries;
      assert this !in Arrays(items);
      ghost var kept: Snap := map[];
      var table: map<Key, nat> := idx;
      result := [];
      CarriesNothing(items, snap, deleted);
      for i := 0 to |items|
        invariant Carries(items, i, result, table, kept, snap, deleted)
      {
        var item := items[i];
        CarriesNext(items, i, result, table, kept, snap, deleted);
        if item.key !in deleted {
          kept := kept[item.key := snap[item.key]];
          table := table[item.key := |result|];
          result := result + [item];
        }
      }
      CarriesAll(items, result, table, kept, snap, deleted);
      ArraysOfSome(result, items);
      assert this !in Arrays(result);
      idx := table;
    }

    /** Field values into the buffer, as many as the payload holds. */
    method ReadFields(size: nat)
      requires u.Valid()
      modifies `df, df, u
      ensures u.Valid() && (df == old(df) || fresh(df))
      ensures var r := ReadUpTo(old(u.Rest()), size);
        u.Rest() == r.1 && df[..] == Overwrite(old(df[..]), r.0, size)
    {
      DeltaBuf(size);
      FillBuffer(df, size);
    }

    method FillBuffer(buf: array<int>, size: nat)
      requires u.Valid() && size <= buf.Length
      modifies buf, u
      ensures u.Valid()
      ensures var r := ReadUpTo(old(u.Rest()), size);
        u.Rest() == r.1 && buf[..] == r.0 + old(buf[|r.0|..])
    {
      hide Varint.Decode, ReadUpTo;
      ghost var all, before := ReadUpTo(u.Rest(), size), buf[..];
      ghost var read: seq<int> := [];
      assert [] + all.0 == all.0 && [] + before[0..] == before;
      for f := 0 to size
        invariant u.Valid() && |read| == f && buf[..] == read + before[f..]
        invariant ReadsOn(all, read, u.Rest(), size - f)
      {
        ReadOne(all, read, u.Rest(), size - f);
        var v := u.NextInt();
        if v.Failure? {
          break;
        }
        buf[f] := v.value;
        OverwriteOne(read, before, f, v.value);
        read := read + [v.value];
      }
      ReadNone(all, read, u.Rest());
    }

    /** The size that belongs to the type, or else the next int. */
    method ReadItemSize(typeID: int, sizes: int -> int) returns (size: Result<int>)
      requires u.Valid()
      modifies u
      ensures u.Valid()
      ensures var spec := ReadSize(old(u.Rest()), typeID, sizes);
        size == spec.ToResult() && (spec.Ok? ==> u.Rest() == spec.rest)
    {
      size := Success(sizes(typeID));
      if size.value < 0 {
        size := u.NextInt();
      }
    }

    method ReadItemHead(sizes: int -> int) returns (h: Result<Head>)
      requires u.Valid()
      modifies u
      ensures u.Valid()
      ensures var spec := ReadHead(old(u.Rest()), sizes);
        h == spec.ToResult() && (spec.Ok? ==> u.Rest() == spec.rest)
    {
      hide Varint.Decode, ReadSize;
      var typeID := u.NextInt();
      if typeID.Failure? {
        return Failure(typeID.error);
      }
      var id := u.NextInt();
      if id.Failure? {
        return Failure(id.error);
      }
      var size := ReadItemSize(typeID.value, sizes);
      if size.Failure? {
        return Failure(size.error);
      }
      h := Success(Head(Key(typeID.value, id.value), size.value));
    }

    /** Appends the absolute fields: the base's, or zero where it has none, plus what the buffer holds. */
    method AppendFields(k: Key, size: nat, ghost snap: Snap)
      requires Knows(snap) && size <= df.Length
      modifies `flat
      ensures flat == old(flat) + Merge(At(snap, k), df[..size])
    {
      ghost var merged := Merge(At(snap, k), df[..size]);
      assert k in base ==> ShowsItem(Item(k, base[k]), snap);
      var fields := if k in base then base[k] else Slice(df, 0, 0);
      var out := flat;
      for f := 0 to size
        invariant out == flat + merged[..f]
      {
        var b := if f < fields.len then fields.arr[fields.off + f] else 0;
        assert merged[f] == b + df[f];
        out := out + [b + df[f]];
      }
      assert merged[..size] == merged;
      flat := out;
    }

    /** Pass 1: every update's absolute fields into `flat`, and where they lie. */
    method DecodeUpdates(n: int, sizes: int -> int, ghost snap: Snap) returns (failed: Option<Error>)
      requires u.Valid() && Knows(snap) && BufferApart()
      modifies `df, `flat, `upds, df, u
      ensures u.Valid() && (df == old(df) || fresh(df))
      ensures match ReadUpdates(old(u.Rest()), Count(n), sizes, old(df[..]))
        case Failure(e) => failed == Some(e)
        case Success(us) => failed == None && LaidOut(flat, upds, snap, us)
    {
      hide ReadHead, ReadUpTo, ReadUpdates, Overwrite, Merge, Knows, LaidOut;
      ghost var all := ReadUpdates(u.Rest(), Count(n), sizes, df[..]);
      ghost var us: seq<Update> := [];
      assert this !in BaseArrays();
      flat, upds := [], [];
      NothingLaidOut(snap);
      ContinuesStart(all);
      assert this !in BaseArrays() && u !in BaseArrays();
      for i := 0 to Count(n)
        invariant u.Valid() && (df == old(df) || fresh(df)) && Knows(snap) && BufferApart() && base == old(base)
        invariant Continues(all, ReadUpdates(u.Rest(), Count(n) - i, sizes, df[..]), us)
        invariant LaidOut(flat, upds, snap, us)
      {
        ghost var now := ReadUpdates(u.Rest(), Count(n) - i, sizes, df[..]);
        NextUpdate(u.Rest(), Count(n) - i, sizes, df[..]);
        var h := ReadItemHead(sizes);
        if h.Failure? {
          return Some(h.error);
        }
        var Head(key, size) := h.value;
        if size < 0 {
          return Some(Panic);
        }
        assert this !in BaseArrays() && u !in BaseArrays();
        ReadFields(size);
        ghost var before := flat;
        AppendFields(key, size, snap);
        ghost var update := Update(key, df[..size]);
        LayOutNext(before, upds, snap, us, update);
        upds := upds + [Meta(key, |flat| - size, size)];
        ContinuesStep(all, now, us, [update], ReadUpdates(u.Rest(), Count(n) - i - 1, sizes, df[..]));
        us := us + [update];
      }
      NoUpdates(u.Rest(), sizes, df[..]);
      ContinuesEnd(all, us);
      failed := None;
    }

    /** Sets the fields of the indexed item, or appends and indexes a new one. */
    static method PutItem(items: seq<Item>, idx: map<Key, nat>, item: Item, ghost snap: Snap)
      returns (result: seq<Item>, table: map<Key, nat>)
      requires Shows(items, snap) && Indexes(idx, items) && item.fields.InBounds()
      ensures Shows(result, snap[item.key := item.fields.Values()]) && Indexes(table, result)
      ensures forall p :: 0 <= p < |result| ==> result[p] in items || result[p] == item
    {
      hide ShowsItem;
      result, table := items, idx;
      if item.key in table {
        SetFields(items, snap, table[item.key], item.fields);
        result := result[table[item.key] := Item(item.key, item.fields)];
      } else {
        NotShown(items, snap, item.key, table);
        AppendItem(items, snap, item);
        table := table[item.key := |result|];
        result := result + [item];
      }
    }

    /** Pass 2: the updated items into the result, in place where the key is indexed, at the end otherwise. */
    method MergeUpdates(kept: seq<Item>, backing: array<int>, ghost acc: Snap, ghost snap: Snap, ghost us: seq<Update>)
      returns (result: seq<Item>)
      requires backing[..] == flat && LaidOut(flat, upds, snap, us)
      requires Shows(kept, acc) && Indexes(idx, kept)
      modifies `idx
      ensures Shows(result, PutAll(acc, snap, us))
      ensures Placed(result, kept, backing, upds)
    {
      hide Merge, ShowsItem, Shows, Placed, Indexes, PutAll, LaidOut;
      assert this !in Arrays(kept);
      NothingPlaced(kept, backing);
      PutNothing(acc, snap);
      assert |upds| == |us| by {
        SameLength(flat, upds, snap, us);
      }
      var table: map<Key, nat> := idx;
      result := kept;
      for i := 0 to |upds|
        invariant Shows(result, PutAll(acc, snap, us[..i])) && Indexes(table, result)
        invariant Placed(result, kept, backing, upds[..i])
      {
        ghost var done, before := PutAll(acc, snap, us[..i]), result;
        var Meta(key, off, size) := upds[i];
        var fields := Slice(backing, off, size);
        SliceOfUpdate(backing, upds, snap, us, i);
        PutAllNext(acc, snap, us, i);
        result, table := PutItem(result, table, Item(key, fields), done);
        PlaceNext(before, result, kept, backing, upds, i);
      }
      assert us[..|us|] == us && upds[..|upds|] == upds && this !in Arrays(result);
      idx := table;
    }
  }

  lemma SameLength(flat: seq<int>, upds: seq<Meta>, snap: Snap, us: seq<Update>)
    requires LaidOut(flat, upds, snap, us)
    ensures |upds| == |us|
  {
  }

  lemma SliceOfUpdate(backing: array<int>, upds: seq<Meta>, snap: Snap, us: seq<Update>, i: nat)
    requires LaidOut(backing[..], upds, snap, us) && i < |us|
    ensures |upds| == |us| && upds[i].key == us[i].key
    ensures var fields := Slice(backing, upds[i].off, upds[i].size);
      fields.InBounds() && fields.Values() == Merge(At(snap, us[i].key), us[i].diffs)
  {
    hide Merge;
    assert Holds(backing[..], upds[i], snap, us[i]);
    assert backing[..][upds[i].off..upds[i].off + upds[i].size] == backing[upds[i].off..upds[i].off + upds[i].size];
  }

  lemma PutNothing(acc: Snap, snap: Snap)
    ensures PutAll(acc, snap, []) == acc
  {
  }

  lemma PutAllNext(acc: Snap, snap: Snap, us: seq<Update>, i: nat)
    requires i < |us|
    ensures PutAll(acc, snap, us[..i + 1])
         == PutAll(acc, snap, us[..i])[us[i].key := Merge(At(snap, us[i].key), us[i].diffs)]
  {
    hide Merge;
    assert us[..i + 1][..i] == us[..i];
  }

  lemma NotShown(items: seq<Item>, snap: Snap, k: Key, idx: map<Key, nat>)
    requires Shows(items, snap) && Indexes(idx, items) && k !in idx
    ensures k !in snap
  {
    assert k in snap ==> HasKey(items, k);
  }

  // ---------- where the fields of the result lie

  predicate LiesIn(item: Item, backing: array<int>, m: Meta) {
    item == Item(m.key, Slice(backing, m.off, m.size))
  }

  /** Every item is one of the kept ones or has its fields in its update's part of the backing array. */
  ghost predicate Placed(items: seq<Item>, kept: seq<Item>, backing: array<int>, upds: seq<Meta>) {
    forall p :: 0 <= p < |items| ==>
      items[p] in kept || exists m :: 0 <= m < |upds| && LiesIn(items[p], backing, upds[m])
  }

  lemma NothingPlaced(kept: seq<Item>, backing: array<int>)
    ensures Placed(kept, kept, backing, [])
  {
  }

  lemma PlaceNext(before: seq<Item>, after: seq<Item>, kept: seq<Item>, backing: array<int>, upds: seq<Meta>, i: nat)
    requires i < |upds| && Placed(before, kept, backing, upds[..i])
    requires forall p :: 0 <= p < |after| ==> after[p] in before || LiesIn(after[p], backing, upds[i])
    ensures Placed(after, kept, backing, upds[..i + 1])
  {
    var more := upds[..i + 1];
    forall p | 0 <= p < |after| && after[p] !in kept
      ensures exists m :: 0 <= m < |more| && LiesIn(after[p], backing, more[m])
    {
      if after[p] in before {
        var q :| 0 <= q < |before| && before[q] == after[p];
        var m :| 0 <= m < i && LiesIn(before[q], backing, upds[..i][m]);
        assert LiesIn(after[p], backing, more[m]);
      } else {
        assert LiesIn(after[p], backing, more[i]);
      }
    }
  }

  /** The items that are new have their fields in one array, each in a part of its own. */
  ghost predicate NewFieldsApart(items: seq<Item>, kept: seq<Item>) {
    forall p, q :: 0 <= p < q < |items| && items[p] !in kept && items[q] !in kept ==>
      items[p].fields.arr == items[q].fields.arr && items[p].fields.Apart(items[q].fields)
  }

  lemma PlacedApart(items: seq<Item>, kept: seq<Item>, backing: array<int>, upds: seq<Meta>)
    requires UniqueKeys(items) && Placed(items, kept, backing, upds)
    requires forall i, j :: 0 <= i < j < |upds| ==> upds[i].off + upds[i].size <= upds[j].off
    ensures NewFieldsApart(items, kept)
    ensures forall p :: 0 <= p < |items| ==> items[p] in kept || items[p].fields.arr == backing
  {
    forall p, q | 0 <= p < q < |items| && items[p] !in kept && items[q] !in kept
      ensures items[p].fields.arr == items[q].fields.arr && items[p].fields.Apart(items[q].fields)
    {
      var m :| 0 <= m < |upds| && LiesIn(items[p], backing, upds[m]);
      var n :| 0 <= n < |upds| && LiesIn(items[q], backing, upds[n]);
      assert m != n;
    }
  }

  /** The first update that is read, and the others after it. */
  lemma NextUpdate(s: seq<byte>, n: nat, sizes: int -> int, stale: seq<int>)
    requires n > 0
    ensures var now := ReadUpdates(s, n, sizes, stale);
      match ReadHead(s, sizes)
      case Bad(e) => now == Failure(e)
      case Ok(h, rest) =>
        if h.size < 0 then now == Failure(Panic)
        else
          var (vs, rest') := ReadUpTo(rest, h.size);
          var buf := Overwrite(stale, vs, h.size);
          Continues(now, ReadUpdates(rest', n - 1, sizes, buf), [Update(h.key, buf[..h.size])])
  {
    hide ReadHead, ReadUpTo, Overwrite;
  }

  lemma NothingLaidOut(snap: Snap)
    ensures LaidOut([], [], snap, [])
  {
  }

  // ---------- carrying the base forward

  /** The first i items are carried forward, except for those that are gone. */
  ghost predicate Carries(items: seq<Item>, i: nat, result: seq<Item>, table: map<Key, nat>, kept: Snap, snap: Snap,
                          gone: set<Key>)
    reads Arrays(result)
  {
    && i <= |items| && Shows(result, kept) && Indexes(table, result)
    && (forall j :: 0 <= j < |result| ==> result[j] in items)
    && (forall k :: k in kept <==> k !in gone && HasKey(items[..i], k))
    && forall k :: k in kept ==> k in snap && kept[k] == snap[k]
  }

  lemma CarriesNothing(items: seq<Item>, snap: Snap, gone: set<Key>)
    ensures Carries(items, 0, [], map[], map[], snap, gone)
  {
  }

  lemma HasKeyNext(items: seq<Item>, i: nat, k: Key)
    requires i < |items|
    ensures HasKey(items[..i + 1], k) <==> HasKey(items[..i], k) || items[i].key == k
  {
    var front, more := items[..i], items[..i + 1];
    if j :| 0 <= j < |front| && front[j].key == k {
      assert more[j].key == k;
    }
    if j :| 0 <= j < |more| && more[j].key == k {
      assert j < i ==> front[j].key == k;
    }
    assert more[i] == items[i];
  }

  lemma CarriesNext(items: seq<Item>, i: nat, result: seq<Item>, table: map<Key, nat>, kept: Snap, snap: Snap,
                    gone: set<Key>)
    requires i < |items| && Shows(items, snap) && Carries(items, i, result, table, kept, snap, gone)
    ensures var item := items[i];
      item.key in snap &&
      if item.key in gone then Carries(items, i + 1, result, table, kept, snap, gone)
      else Carries(items, i + 1, result + [item], table[item.key := |result|], kept[item.key := snap[item.key]], snap, gone)
  {
    hide Shows, Indexes;
    var item := items[i];
    forall k ensures HasKey(items[..i + 1], k) <==> HasKey(items[..i], k) || item.key == k {
      HasKeyNext(items, i, k);
    }
    ItemShows(items, snap, i);
    if item.key !in gone {
      AppendItem(result, kept, item);
      IndexNext(result, table, kept, item);
    }
  }

  /** An item's key is new when it comes, and its fields are the map's. */
  lemma ItemShows(items: seq<Item>, snap: Snap, i: nat)
    requires i < |items| && Shows(items, snap)
    ensures var item := items[i];
      && item.fields.InBounds() && item.key in snap && item.fields.Values() == snap[item.key]
      && !HasKey(items[..i], item.key)
  {
    assert ShowsItem(items[i], snap);
  }

  lemma IndexNext(result: seq<Item>, table: map<Key, nat>, kept: Snap, item: Item)
    requires Shows(result, kept) && Indexes(table, result) && item.key !in kept
    ensures Indexes(table[item.key := |result|], result + [item])
  {
    assert forall j :: 0 <= j < |result| ==> ShowsItem(result[j], kept);
  }

  lemma CarriesAll(items: seq<Item>, result: seq<Item>, table: map<Key, nat>, kept: Snap, snap: Snap, gone: set<Key>)
    requires Shows(items, snap) && Carries(items, |items|, result, table, kept, snap, gone)
    ensures Shows(result, snap - gone) && Indexes(table, result)
    ensures forall i :: 0 <= i < |result| ==> result[i] in items
  {
    hide Indexes, ShowsItem;
    assert items[..|items|] == items;
    forall k ensures k in kept <==> k in snap - gone {
      assert k in snap ==> HasKey(items, k);
    }
    assert kept == snap - gone;
  }

  // ---------- the whole call

  /** The counts in front of a delta; the third one is not used. */
  method ReadCounts(u: Unpacker) returns (counts: Result<seq<int>>)
    requires u.Valid()
    modifies u
    ensures u.Valid()
    ensures var spec := ReadInts(old(u.Rest()), 3);
      counts == spec.ToResult() && (spec.Ok? ==> u.Rest() == spec.rest && |counts.value| == 3)
  {
    counts := u.NextInts(3);
  }

  lemma ArraysOfSome(some: seq<Item>, items: seq<Item>)
    requires forall i :: 0 <= i < |some| ==> some[i] in items
    ensures Arrays(some) <= Arrays(items)
  {
    forall i | 0 <= i < |some| ensures some[i].fields.arr as object in Arrays(items) {
      var j :| 0 <= j < |items| && items[j] == some[i];
    }
  }

  /** Up to the end of pass 1: the base's items that stay, and the updates laid out in the scratch. */
  method ReadDelta(items: seq<Item>, data: seq<byte>, sizes: int -> int, sc: Scratch, ghost snap: Snap)
    returns (r: Result<seq<Item>>)
    requires Shows(items, snap) && sc.Clean() && sc.df !in Arrays(items)
    modifies sc, sc.df, sc.u
    ensures sc.df == old(sc.df) || fresh(sc.df)
    ensures match ParseDelta(data, sizes, old(sc.df[..]))
      case Failure(e) => r == Failure(e)
      case Success(d) =>
        && r.Success? && Shows(r.value, snap - DeletedKeys(d)) && Indexes(sc.idx, r.value)
        && LaidOut(sc.flat, sc.upds, snap, d.updates)
        && sc.df !in Arrays(r.value)
        && forall i :: 0 <= i < |r.value| ==> r.value[i] in items
  {
    hide ReadUpdates, ReadInts, Shows, Indexes, LaidOut, MapOf, InBounds, UniqueKeys;
    assert sc !in Arrays(items) && sc.u !in Arrays(items);
    sc.u.Reset(data);
    var counts := ReadCounts(sc.u);
    if counts.Failure? {
      return Failure(counts.error);
    }
    sc.LoadBase(items, snap);
    var failed := sc.ReadDeleted(counts.value[0]);
    if failed.Some? {
      return Failure(failed.value);
    }
    var kept := sc.CarryForward(items, snap);
    ghost var gone := sc.deleted;
    ArraysOfSome(kept, items);
    assert sc !in sc.BaseArrays() && sc.u !in sc.BaseArrays();
    failed := sc.DecodeUpdates(counts.value[1], sizes, snap);
    if failed.Some? {
      return Failure(failed.value);
    }
    r := Success(kept);
    assert gone == DeletedKeys(ParseDelta(data, sizes, old(sc.df[..])).value);
  }

  lemma NewForAll(items: seq<Item>, kept: seq<Item>, all: seq<Item>)
    requires NewFieldsApart(items, kept) && forall i :: 0 <= i < |kept| ==> kept[i] in all
    ensures NewFieldsApart(items, all)
  {
  }

  /** One array for all updated fields, then pass 2. */
  method Finish(kept: seq<Item>, sc: Scratch, ghost acc: Snap, ghost snap: Snap, ghost us: seq<Update>)
    returns (items: seq<Item>)
    requires LaidOut(sc.flat, sc.upds, snap, us)
    requires Shows(kept, acc) && Indexes(sc.idx, kept) && sc.df !in Arrays(kept)
    modifies sc`idx
    ensures Shows(items, PutAll(acc, snap, us))
    ensures NewFieldsApart(items, kept)
    ensures forall i :: 0 <= i < |items| ==> items[i] in kept || fresh(items[i].fields.arr)
    ensures sc.df !in Arrays(items)
  {
    hide PutAll, Holds, Indexes, Placed, ShowsItem, LiesIn;
    assert sc !in Arrays(kept);
    var flat := sc.flat;
    var backing := new int[|flat|](i requires 0 <= i < |flat| => flat[i]);
    items := sc.MergeUpdates(kept, backing, acc, snap, us);
    PlacedApart(items, kept, backing, sc.upds);
    forall i | 0 <= i < |items| ensures items[i].fields.arr != sc.df {
      assert items[i] in kept ==> items[i].fields.arr as object in Arrays(kept);
    }
  }

  /** The items of the result: those of the base for an empty payload. */
  method NewItems(items: seq<Item>, data: seq<byte>, sizes: int -> int, sc: Scratch, ghost snap: Snap)
    returns (r: Result<seq<Item>>)
    requires Shows(items, snap) && sc.Clean() && sc.df !in Arrays(items)
    modifies sc, sc.df, sc.u
    ensures sc.Clean() && (sc.df == old(sc.df) || fresh(sc.df))
    ensures match ApplyBytes(snap, data, sizes, old(sc.df[..]))
      case Failure(e) => r == Failure(e)
      case Success(snap') =>
        r.Success? && Shows(r.value, snap') && NewFieldsApart(r.value, items) && sc.df !in Arrays(r.value)
    ensures r.Success? ==> forall i :: 0 <= i < |r.value| ==> r.value[i] in items || fresh(r.value[i].fields.arr)
  {
    hide ParseDelta, Spec.Apply, PutAll, Indexes, LaidOut, Shows, NewFieldsApart;
    NothingNew(items);
    if data == [] {
      return Success(items);
    }
    ghost var stale := sc.df[..];
    r := ReadDelta(items, data, sizes, sc, snap);
    if r.Success? {
      ghost var d := ParseDelta(data, sizes, stale).value;
      var kept := r.value;
      var result := Finish(kept, sc, snap - DeletedKeys(d), snap, d.updates);
      PutAllIsApply(snap, d);
      NewForAll(result, kept, items);
      assert sc !in Arrays(result);
      r := Success(result);
    }
    sc.Clear();
  }

  /**
   applyDelta. The result is the base's map with the delta applied; its items are items of the base,
   sharing their fields, or new ones whose fields are disjoint parts of one fresh array.
   */
  method Apply(base: TickSnap, tick: int, data: seq<byte>, sizes: int -> int, sc: Scratch) returns (r: Result<TickSnap>)
    requires base.Valid() && sc.Clean() && sc.df !in Arrays(base.items)
    modifies sc, sc.df, sc.u
    ensures sc.Clean() && (sc.df == old(sc.df) || fresh(sc.df))
    ensures match ApplyBytes(base.View(), data, sizes, old(sc.df[..]))
      case Failure(e) => r == Failure(e)
      case Success(snap) =>
        && r.Success? && fresh(r.value) && r.value.tick == tick
        && Shows(r.value.items, snap) && NewFieldsApart(r.value.items, base.items)
        && sc.df !in Arrays(r.value.items)
    ensures r.Success? ==> forall i :: 0 <= i < |r.value.items| ==>
      r.value.items[i] in base.items || fresh(r.value.items[i].fields.arr)
  {
    hide ApplyBytes, Shows, NewFieldsApart, MapOf, InBounds, UniqueKeys;
    ghost var snap := base.View();
    var items := NewItems(base.items, data, sizes, sc, snap);
    if items.Failure? {
      return Failure(items.error);
    }
    var result := new TickSnap(tick, items.value);
    assert result !in Arrays(items.value);
    r := Success(result);
  }

  lemma NothingNew(items: seq<Item>)
    ensures NewFieldsApart(items, items)
  {
  }
}
