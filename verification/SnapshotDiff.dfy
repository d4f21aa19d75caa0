/**
 The server's side of the format, which the client's repository does not hold: the difference of two
 snapshots, and its bytes. Applying it is proved to give the second snapshot back.
 */
module SnapshotDiff {
  import opened Wire
  import opened Cursor
  import opened Snapshot
  import Varint

  /** The keys of a set in some order. */
  ghost function InOrder(s: set<Key>): (q: seq<Key>)
    ensures forall k :: k in s <==> k in q
    ensures forall i, j :: 0 <= i < j < |q| ==> q[i] != q[j]
    ensures |q| == |s|
  {
    if s == {} then []
    else
      var k :| k in s;
      [k] + InOrder(s - {k})
  }

  function ChangedKeys(base: Snap, target: Snap): set<Key> {
    set k | k in target && (k !in base || base[k] != target[k])
  }

  /** The differences that lead from the base's fields, cut or extended, to the target's. */
  function Differences(fields: seq<int>, target: seq<int>): (r: seq<int>)
    ensures |r| == |target|
  {
    seq(|target|, f requires 0 <= f < |target| => target[f] - if f < |fields| then fields[f] else 0)
  }

  function UpdatesFor(base: Snap, target: Snap, keys: seq<Key>): (us: seq<Update>)
    requires forall k :: k in keys ==> k in target
    ensures |us| == |keys|
    ensures forall i :: 0 <= i < |us| ==> us[i] == Update(keys[i], Differences(At(base, keys[i]), target[keys[i]]))
  {
    seq(|keys|, i requires 0 <= i < |keys| => Update(keys[i], Differences(At(base, keys[i]), target[keys[i]])))
  }

  ghost function Diff(base: Snap, target: Snap): Delta {
    Delta(InOrder(base.Keys - target.Keys), UpdatesFor(base, target, InOrder(ChangedKeys(base, target))))
  }

  lemma MergeOfDifferences(fields: seq<int>, target: seq<int>)
    ensures Merge(fields, Differences(fields, target)) == target
  {
  }

  lemma {:induction false} LastOfDistinct(us: seq<Update>, i: nat)
    requires i < |us| && forall a, b :: 0 <= a < b < |us| ==> us[a].key != us[b].key
    ensures Updated(us, us[i].key) && LastDiffs(us, us[i].key) == us[i].diffs
  {
    assert Updated(us, us[i].key);
    if i < |us| - 1 {
      LastOfDistinct(us[..|us| - 1], i);
    }
  }

  lemma UpdatedByDiff(base: Snap, target: Snap, k: Key)
    ensures var us := Diff(base, target).updates;
      (Updated(us, k) <==> k in ChangedKeys(base, target)) && (k in UpdatedKeys(us) <==> k in ChangedKeys(base, target))
    ensures k in ChangedKeys(base, target) ==>
      LastDiffs(Diff(base, target).updates, k) == Differences(At(base, k), target[k])
  {
    hide Differences, LastDiffs, InOrder, UpdatesFor;
    var keys, us := InOrder(ChangedKeys(base, target)), Diff(base, target).updates;
    if k in keys {
      var i :| 0 <= i < |keys| && keys[i] == k;
      assert us[i].key == k;
      LastOfDistinct(us, i);
    }
  }

  lemma DeletedByDiff(base: Snap, target: Snap, k: Key)
    ensures k in DeletedKeys(Diff(base, target)) <==> k in base && k !in target
  {
    hide Differences, ChangedKeys, InOrder;
    var q := InOrder(base.Keys - target.Keys);
    assert Diff(base, target).deleted == q;
    assert k in q <==> k in base && k !in target;
  }

  /** Applying the difference of two snapshots to the first gives the second. */
  lemma ApplyOfDiff(base: Snap, target: Snap)
    ensures Apply(base, Diff(base, target)) == target
  {
    hide Merge, Differences, LastDiffs, InOrder, Diff, Updated, UpdatedKeys, DeletedKeys;
    var result := Apply(base, Diff(base, target));
    forall k ensures k in result <==> k in target {
      UpdatedByDiff(base, target, k);
      DeletedByDiff(base, target, k);
    }
    forall k | k in target ensures result[k] == target[k] {
      UpdatedByDiff(base, target, k);
      if k in ChangedKeys(base, target) {
        MergeOfDifferences(At(base, k), target[k]);
      }
    }
  }

  // ---------- the bytes

  function KeyInt(k: Key): (v: int)
    ensures IsInt32(v)
  {
    ToInt32(k.typeID * 0x1_0000 + k.id)
  }

  predicate SmallKey(k: Key) {
    0 <= k.typeID < 0x1_0000 && 0 <= k.id < 0x1_0000
  }

  lemma KeyOfKeyInt(k: Key)
    requires SmallKey(k)
    ensures KeyOf(KeyInt(k)) == k
  {
  }

  function KeyInts(keys: seq<Key>): (vs: seq<int>)
    ensures |vs| == |keys| && forall i :: 0 <= i < |vs| ==> vs[i] == KeyInt(keys[i])
  {
    seq(|keys|, i requires 0 <= i < |keys| => KeyInt(keys[i]))
  }

  /** Type, id, the size unless the type has a fixed one, and the differences. */
  function UpdateInts(u: Update, sizes: int -> int): seq<int> {
    [u.key.typeID, u.key.id] + (if sizes(u.key.typeID) >= 0 then [] else [|u.diffs|]) + u.diffs
  }

  function EncodeUpdates(us: seq<Update>, sizes: int -> int): seq<byte> {
    if us == [] then [] else AppendInts(UpdateInts(us[0], sizes)) + EncodeUpdates(us[1..], sizes)
  }

  function EncodeDelta(d: Delta, sizes: int -> int): seq<byte> {
    AppendInts([|d.deleted|, |d.updates|, 0]) + (AppendInts(KeyInts(d.deleted)) + EncodeUpdates(d.updates, sizes))
  }

  predicate AllInt32(vs: seq<int>) {
    forall i :: 0 <= i < |vs| ==> IsInt32(vs[i])
  }

  /** The update can be written: small key, 32-bit differences, and the size its type prescribes. */
  predicate Writable(u: Update, sizes: int -> int) {
    && SmallKey(u.key) && AllInt32(u.diffs) && |u.diffs| <= MAX_INT32
    && (sizes(u.key.typeID) >= 0 ==> |u.diffs| == sizes(u.key.typeID))
  }

  predicate WritableDelta(d: Delta, sizes: int -> int) {
    && |d.deleted| <= MAX_INT32 && |d.updates| <= MAX_INT32
    && (forall i :: 0 <= i < |d.deleted| ==> SmallKey(d.deleted[i]))
    && forall i :: 0 <= i < |d.updates| ==> Writable(d.updates[i], sizes)
  }

  lemma ReadHeadOfUpdate(u: Update, sizes: int -> int, rest: seq<byte>)
    requires Writable(u, sizes)
    ensures var h := ReadHead(AppendInts(UpdateInts(u, sizes)) + rest, sizes);
      h == Ok(Head(u.key, |u.diffs|), AppendInts(u.diffs) + rest)
  {
    hide Varint.Decode, Varint.PackInt;
    var vs := UpdateInts(u, sizes);
    AppendIntsCons(vs, rest);
    Varint.DecodeOfPack(u.key.typeID, AppendInts(vs[1..]) + rest);
    AppendIntsCons(vs[1..], rest);
    Varint.DecodeOfPack(u.key.id, AppendInts(vs[1..][1..]) + rest);
    if sizes(u.key.typeID) >= 0 {
      assert vs[1..][1..] == u.diffs;
    } else {
      AppendIntsCons(vs[1..][1..], rest);
      assert vs[1..][1..][1..] == u.diffs;
      Varint.DecodeOfPack(|u.diffs|, AppendInts(u.diffs) + rest);
    }
  }

  lemma {:induction false} ReadUpdatesOfEncode(us: seq<Update>, sizes: int -> int, stale: seq<int>)
    requires forall i :: 0 <= i < |us| ==> Writable(us[i], sizes)
    ensures ReadUpdates(EncodeUpdates(us, sizes), |us|, sizes, stale) == Success(us)
    ensures CompleteUpdates(EncodeUpdates(us, sizes), |us|, sizes)
    decreases |us|
  {
    hide AppendInts, ReadInts, ReadHead, ReadUpTo, UpdateInts;
    if us != [] {
      var u, rest := us[0], EncodeUpdates(us[1..], sizes);
      ReadHeadOfUpdate(u, sizes, rest);
      ReadIntsOfAppend(u.diffs, rest);
      ReadUpToAll(AppendInts(u.diffs) + rest, |u.diffs|);
      var buf := Overwrite(stale, u.diffs, |u.diffs|);
      assert buf[..|u.diffs|] == u.diffs;
      ReadUpdatesOfEncode(us[1..], sizes, buf);
      assert [u] + us[1..] == us;
    }
  }

  lemma ParseOfEncode(d: Delta, sizes: int -> int, stale: seq<int>)
    requires WritableDelta(d, sizes)
    ensures EncodeDelta(d, sizes) != []
    ensures ParseDelta(EncodeDelta(d, sizes), sizes, stale) == Success(d) && Complete(EncodeDelta(d, sizes), sizes)
  {
    hide AppendInts, ReadInts, ReadUpdates, EncodeUpdates, KeyInt, KeyOf, CompleteUpdates;
    var counts := [|d.deleted|, |d.updates|, 0];
    var keys, ups := KeyInts(d.deleted), EncodeUpdates(d.updates, sizes);
    ReadIntsOfAppend(counts, AppendInts(keys) + ups);
    ReadIntsOfAppend(keys, ups);
    ReadUpdatesOfEncode(d.updates, sizes, stale);
    forall i | 0 <= i < |keys| ensures KeyOf(keys[i]) == d.deleted[i] {
      KeyOfKeyInt(d.deleted[i]);
    }
    assert KeysOf(keys) == d.deleted;
    NotEmpty(counts);
  }

  lemma NotEmpty(vs: seq<int>)
    ensures vs != [] ==> AppendInts(vs) != []
  {
  }

  /** What the server sends for a tick: nothing when nothing changed. */
  ghost function Encode(base: Snap, target: Snap, sizes: int -> int): seq<byte> {
    if base == target then [] else EncodeDelta(Diff(base, target), sizes)
  }

  /** The format can express the change from base to target. */
  ghost predicate Encodable(base: Snap, target: Snap, sizes: int -> int) {
    WritableDelta(Diff(base, target), sizes)
  }

  /** The client rebuilds the server's snapshot from the base and the bytes. */
  lemma EncodeRoundTrip(base: Snap, target: Snap, sizes: int -> int, stale: seq<int>)
    requires Encodable(base, target, sizes)
    ensures ApplyBytes(base, Encode(base, target, sizes), sizes, stale) == Success(target)
    ensures Complete(Encode(base, target, sizes), sizes)
  {
    hide EncodeDelta, Apply, ParseDelta, Diff, WritableDelta;
    if base != target {
      ParseOfEncode(Diff(base, target), sizes, stale);
      ApplyOfDiff(base, target);
    }
  }

  predicate FitsType(base: Snap, target: Snap, k: Key, sizes: int -> int)
    requires k in target
  {
    && |target[k]| <= MAX_INT32
    && (sizes(k.typeID) >= 0 ==> |target[k]| == sizes(k.typeID))
    && AllInt32(Differences(At(base, k), target[k]))
  }

  /**
   Encodable spelled out for the server: few enough keys, all of them small, sizes as their types
   prescribe, and field differences that fit in 32 bits.
   */
  lemma WhenEncodable(base: Snap, target: Snap, sizes: int -> int)
    requires |base| <= MAX_INT32 && |target| <= MAX_INT32
    requires forall k :: k in base || k in target ==> SmallKey(k)
    requires forall k :: k in target ==> FitsType(base, target, k, sizes)
    ensures Encodable(base, target, sizes)
  {
    hide Differences, SmallKey, AllInt32, InOrder, UpdatesFor, Writable, FitsType;
    Fewer(base.Keys - target.Keys, base.Keys);
    Fewer(ChangedKeys(base, target), target.Keys);
    var gone := InOrder(base.Keys - target.Keys);
    forall i | 0 <= i < |gone| ensures SmallKey(gone[i]) {
      assert gone[i] in gone;
    }
    UpdatesWritable(base, target, InOrder(ChangedKeys(base, target)), sizes);
  }

  lemma UpdatesWritable(base: Snap, target: Snap, keys: seq<Key>, sizes: int -> int)
    requires forall k :: k in keys ==> k in target && SmallKey(k) && FitsType(base, target, k, sizes)
    ensures forall i :: 0 <= i < |keys| ==> Writable(UpdatesFor(base, target, keys)[i], sizes)
  {
    hide Differences, SmallKey, AllInt32, UpdatesFor;
    forall i | 0 <= i < |keys| ensures Writable(UpdatesFor(base, target, keys)[i], sizes) {
      assert keys[i] in keys;
    }
  }

  lemma Fewer(a: set<Key>, b: set<Key>)
    requires a <= b
    ensures |a| <= |b|
  {
    assert b == a + (b - a);
  }
}
