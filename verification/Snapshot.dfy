/**
 Snapshots at their simplest: a map from keys to fields, a delta over it, and the bytes of a delta.
 */
module Snapshot {
  import opened Wire
  import opened Cursor
  import Varint

  datatype Key = Key(typeID: int, id: int)

  type Snap = map<Key, seq<int>>

  datatype Update = Update(key: Key, diffs: seq<int>)

  datatype Delta = Delta(deleted: seq<Key>, updates: seq<Update>)

  // ---------- what a delta means

  function At(base: Snap, k: Key): seq<int> {
    if k in base then base[k] else []
  }

  /** Fields of the base, extended with zeros or cut to the size of the differences, plus the differences. */
  function Merge(fields: seq<int>, diffs: seq<int>): (r: seq<int>)
    ensures |r| == |diffs|
  {
    seq(|diffs|, f requires 0 <= f < |diffs| => (if f < |fields| then fields[f] else 0) + diffs[f])
  }

  predicate Updated(us: seq<Update>, k: Key) {
    exists i :: 0 <= i < |us| && us[i].key == k
  }

  /** The last update of a key wins. */
  function LastDiffs(us: seq<Update>, k: Key): seq<int>
    requires Updated(us, k)
  {
    var n := |us| - 1;
    if us[n].key == k then us[n].diffs
    else
      assert Updated(us[..n], k) by {
        var i :| 0 <= i < |us| && us[i].key == k;
        assert us[..n][i].key == k;
      }
      LastDiffs(us[..n], k)
  }

  function UpdatedKeys(us: seq<Update>): set<Key> {
    set i | 0 <= i < |us| :: us[i].key
  }

  function DeletedKeys(d: Delta): set<Key> {
    set i | 0 <= i < |d.deleted| :: d.deleted[i]
  }

  /**
   The base without the deleted keys, overridden by every updated key. An update counts from the base's
   fields even when the key is deleted too.
   */
  function Apply(base: Snap, d: Delta): Snap {
    map k | k in (base.Keys - DeletedKeys(d)) + UpdatedKeys(d.updates) ::
      if Updated(d.updates, k) then Merge(At(base, k), LastDiffs(d.updates, k)) else At(base, k)
  }

  // ---------- one update after the other

  /** Puts the updates into `acc` in order, each counted from `base`. */
  function PutAll(acc: Snap, base: Snap, us: seq<Update>): Snap {
    if us == [] then acc
    else
      var n := |us| - 1;
      PutAll(acc, base, us[..n])[us[n].key := Merge(At(base, us[n].key), us[n].diffs)]
  }

  lemma {:induction false} PutAllAt(acc: Snap, base: Snap, us: seq<Update>, k: Key)
    ensures k in PutAll(acc, base, us) <==> k in acc || Updated(us, k)
    ensures Updated(us, k) ==> PutAll(acc, base, us)[k] == Merge(At(base, k), LastDiffs(us, k))
    ensures k in acc && !Updated(us, k) ==> PutAll(acc, base, us)[k] == acc[k]
  {
    hide Merge;
    if us != [] {
      var n := |us| - 1;
      PutAllAt(acc, base, us[..n], k);
      assert Updated(us, k) <==> us[n].key == k || Updated(us[..n], k) by {
        if i :| 0 <= i < |us| && us[i].key == k {
          assert i < n ==> us[..n][i].key == k;
        }
        if i :| 0 <= i < n && us[..n][i].key == k {
          assert us[i].key == k;
        }
      }
    }
  }

  lemma PutAllIsApply(base: Snap, d: Delta)
    ensures PutAll(base - DeletedKeys(d), base, d.updates) == Apply(base, d)
  {
    hide Merge, LastDiffs, PutAll;
    var acc := base - DeletedKeys(d);
    forall k ensures k in PutAll(acc, base, d.updates) <==> k in Apply(base, d) {
      PutAllAt(acc, base, d.updates, k);
    }
    forall k | k in Apply(base, d) ensures PutAll(acc, base, d.updates)[k] == Apply(base, d)[k] {
      PutAllAt(acc, base, d.updates, k);
    }
  }

  // ---------- the bytes of a delta

  function KeyOf(v: int): Key {
    Key(v / 0x1_0000 % 0x1_0000, v % 0x1_0000)
  }

  function KeysOf(vs: seq<int>): seq<Key> {
    seq(|vs|, i requires 0 <= i < |vs| => KeyOf(vs[i]))
  }

  /** Go's `range n` for a number that may be negative. */
  function Count(n: int): nat {
    if n < 0 then 0 else n
  }

  /** Up to n values, stopping quietly where the bytes give out. */
  function ReadUpTo(s: seq<byte>, n: nat): (r: (seq<int>, seq<byte>))
    ensures |r.0| <= n && |r.1| <= |s|
    decreases n
  {
    if n == 0 || Varint.Decode(s).Bad? then ([], s)
    else
      var d := Varint.Decode(s);
      var r := ReadUpTo(d.rest, n - 1);
      ([d.value] + r.0, r.1)
  }

  /** The buffer for a read of n values: the old one, or fresh zeros when that is too short. */
  function Buffer(stale: seq<int>, n: nat): (b: seq<int>)
    ensures |b| >= n
  {
    if |stale| < n then seq(n, _ => 0) else stale
  }

  /** The buffer after the values have been written over its front. */
  function Overwrite(stale: seq<int>, vs: seq<int>, n: nat): (b: seq<int>)
    requires |vs| <= n
    ensures |b| >= n
  {
    vs + Buffer(stale, n)[|vs|..]
  }

  /** The size that belongs to the type, or else the one in the stream. */
  function ReadSize(s: seq<byte>, typeID: int, sizes: int -> int): (r: Parsed<int>)
    ensures r.Ok? ==> |r.rest| <= |s|
  {
    if sizes(typeID) >= 0 then Ok(sizes(typeID), s) else Varint.Decode(s)
  }

  datatype Head = Head(key: Key, size: int)

  function ReadHead(s: seq<byte>, sizes: int -> int): Parsed<Head> {
    var (typeID, s1) :- Varint.Decode(s);
    var (id, s2) :- Varint.Decode(s1);
    var (size, s3) :- ReadSize(s2, typeID, sizes);
    Ok(Head(Key(typeID, id), size), s3)
  }

  /**
   The updates, with the buffer that the field values pass through: fields that the payload does not
   hold keep whatever the buffer held. A negative size panics.
   */
  function ReadUpdates(s: seq<byte>, n: nat, sizes: int -> int, stale: seq<int>): Result<seq<Update>>
    decreases n
  {
    if n == 0 then Success([])
    else
      match ReadHead(s, sizes)
      case Bad(e) => Failure(e)
      case Ok(h, s1) =>
        if h.size < 0 then Failure(Panic)
        else
          var (vs, rest) := ReadUpTo(s1, h.size);
          var buf := Overwrite(stale, vs, h.size);
          var us :- ReadUpdates(rest, n - 1, sizes, buf);
          Success([Update(h.key, buf[..h.size])] + us)
  }

  lemma NoUpdates(s: seq<byte>, sizes: int -> int, stale: seq<int>)
    ensures ReadUpdates(s, 0, sizes, stale) == Success([])
  {
  }

  function ParseDelta(data: seq<byte>, sizes: int -> int, stale: seq<int>): Result<Delta> {
    match ReadInts(data, 3)
    case Bad(e) => Failure(e)
    case Ok(counts, s) =>
      match ReadInts(s, Count(counts[0]))
      case Bad(e) => Failure(e)
      case Ok(keys, s1) =>
        var us :- ReadUpdates(s1, Count(counts[1]), sizes, stale);
        Success(Delta(KeysOf(keys), us))
  }

  /** An empty payload carries the base forward. */
  function ApplyBytes(base: Snap, data: seq<byte>, sizes: int -> int, stale: seq<int>): Result<Snap> {
    if data == [] then Success(base)
    else
      var d :- ParseDelta(data, sizes, stale);
      Success(Apply(base, d))
  }

  // ---------- complete payloads

  /** Every update finds all its fields in the payload. */
  predicate CompleteUpdates(s: seq<byte>, n: nat, sizes: int -> int)
    decreases n
  {
    n > 0 ==>
      var h := ReadHead(s, sizes);
      h.Ok? && h.value.size >= 0 && ReadInts(h.rest, h.value.size).Ok?
      && CompleteUpdates(ReadInts(h.rest, h.value.size).rest, n - 1, sizes)
  }

  predicate Complete(data: seq<byte>, sizes: int -> int) {
    data == [] ||
    match ReadInts(data, 3)
    case Bad(_) => false
    case Ok(counts, s) =>
      var keys := ReadInts(s, Count(counts[0]));
      keys.Ok? && CompleteUpdates(keys.rest, Count(counts[1]), sizes)
  }

  lemma {:induction false} ReadUpToAll(s: seq<byte>, n: nat)
    ensures ReadInts(s, n).Ok? <==> |ReadUpTo(s, n).0| == n
    ensures ReadInts(s, n).Ok? ==> ReadUpTo(s, n) == (ReadInts(s, n).value, ReadInts(s, n).rest)
    decreases n
  {
    hide Varint.Decode;
    if n > 0 && Varint.Decode(s).Ok? {
      ReadUpToAll(Varint.Decode(s).rest, n - 1);
    }
  }

  lemma {:induction false} CompleteUpdatesIgnoreBuffer(s: seq<byte>, n: nat, sizes: int -> int, a: seq<int>, b: seq<int>)
    requires CompleteUpdates(s, n, sizes)
    ensures ReadUpdates(s, n, sizes, a).Success?
    ensures ReadUpdates(s, n, sizes, a) == ReadUpdates(s, n, sizes, b)
    decreases n
  {
    hide ReadHead;
    if n > 0 {
      var h := ReadHead(s, sizes);
      var size := h.value.size;
      ReadUpToAll(h.rest, size);
      var (vs, rest) := ReadUpTo(h.rest, size);
      CompleteUpdatesIgnoreBuffer(rest, n - 1, sizes, Overwrite(a, vs, size), Overwrite(b, vs, size));
      assert Overwrite(a, vs, size)[..size] == vs == Overwrite(b, vs, size)[..size];
    }
  }

  /** A complete payload decodes, and to the same snapshot whatever earlier calls left in the buffer. */
  lemma CompleteIgnoresBuffer(base: Snap, data: seq<byte>, sizes: int -> int, a: seq<int>, b: seq<int>)
    requires Complete(data, sizes)
    ensures ApplyBytes(base, data, sizes, a).Success?
    ensures ApplyBytes(base, data, sizes, a) == ApplyBytes(base, data, sizes, b)
  {
    hide CompleteUpdates, ReadUpdates;
    if data != [] {
      var counts := ReadInts(data, 3);
      var keys := ReadInts(counts.rest, Count(counts.value[0]));
      CompleteUpdatesIgnoreBuffer(keys.rest, Count(counts.value[1]), sizes, a, b);
    }
  }

  /**
   A payload cut off inside the last update's fields is accepted all the same, and the missing field
   shows what an earlier call left in the buffer.
   */
  lemma TruncatedShowsBuffer(v: int)
    ensures var data := AppendInts([0, 1, 0, 5, 7, 1]);
      ApplyBytes(map[], data, _ => -1, [v]) == Success(map[Key(5, 7) := [v]])
  {
    hide Varint.Decode, AppendInts, ReadInts, Apply, ReadUpdates;
    var data := AppendInts([0, 1, 0, 5, 7, 1]);
    ReadCounts(AppendInts([5, 7, 1]));
    TruncatedUpdate(v);
    OneUpdate(v);
    assert ParseDelta(data, _ => -1, [v]) == Success(Delta([], [Update(Key(5, 7), [v])]));
  }

  lemma ReadCounts(s: seq<byte>)
    requires s == AppendInts([5, 7, 1])
    ensures var data := AppendInts([0, 1, 0, 5, 7, 1]);
      data != [] && ReadInts(data, 3) == Ok([0, 1, 0], s) && ReadInts(s, 0) == Ok([], s) && KeysOf([]) == []
  {
    hide Varint.Decode, Varint.PackInt;
    assert [0, 1, 0, 5, 7, 1] == [0, 1, 0] + [5, 7, 1];
    AppendIntsJoin([0, 1, 0], [5, 7, 1]);
    ReadIntsOfAppend([0, 1, 0], s);
    assert |KeysOf([])| == 0;
  }

  lemma OneUpdate(v: int)
    ensures Apply(map[], Delta([], [Update(Key(5, 7), [v])])) == map[Key(5, 7) := [v]]
  {
    var us := [Update(Key(5, 7), [v])];
    assert us[0].key == Key(5, 7);
    assert Updated(us, Key(5, 7));
    assert Merge([], [v]) == [v];
  }

  lemma TruncatedUpdate(v: int)
    ensures ReadUpdates(AppendInts([5, 7, 1]), 1, _ => -1, [v]) == Success([Update(Key(5, 7), [v])])
  {
    hide Varint.Decode, Varint.PackInt;
    assert [5, 7, 1][1..] == [7, 1] && [7, 1][1..] == [1] && [1][1..] == [];
    Varint.DecodeOfPack(5, AppendInts([7, 1]));
    Varint.DecodeOfPack(7, AppendInts([1]));
    Varint.DecodeOfPack(1, AppendInts([]));
    Varint.DecodeNothing();
    var sizes: int -> int := _ => -1;
    assert ReadHead(AppendInts([5, 7, 1]), sizes) == Ok(Head(Key(5, 7), 1), []);
    assert ReadUpTo([], 1) == ([], []);
    assert Overwrite([v], [], 1) == [v] && [v][..1] == [v];
    assert [Update(Key(5, 7), [v])] + [] == [Update(Key(5, 7), [v])];
  }
}
