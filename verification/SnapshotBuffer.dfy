/**
 When the buffer that field values pass through can be seen in a decoded snapshot. It is neither cleared
 between payloads nor between the updates of one payload, so a field that the payload does not hold shows
 whatever is in its place: a value of an earlier update of the same payload, or one of an earlier payload.
 */
module SnapshotBuffer {
  import opened Wire
  import opened Cursor
  import opened Snapshot
  import Varint

  function Max(a: nat, b: nat): nat {
    if a < b then b else a
  }

  /**
   The updates come out the same whatever the buffer held. `cover` is the size of the longest update so
   far: the front of the buffer that this payload has filled itself. A short read is settled when another
   update is still to come, for which no bytes are left, or when its fields all lie in the covered front.
   */
  predicate SettledUpdates(s: seq<byte>, n: nat, sizes: int -> int, cover: nat)
    decreases n
  {
    n > 0 ==>
      var h := ReadHead(s, sizes);
      h.Ok? && h.value.size >= 0 ==>
        var (vs, rest) := ReadUpTo(h.rest, h.value.size);
        if |vs| < h.value.size then n > 1 || h.value.size <= cover
        else SettledUpdates(rest, n - 1, sizes, Max(cover, h.value.size))
  }

  predicate Settled(data: seq<byte>, sizes: int -> int) {
    data == [] ||
    match ReadInts(data, 3)
    case Bad(_) => true
    case Ok(counts, s) =>
      var keys := ReadInts(s, Count(counts[0]));
      keys.Ok? ==> SettledUpdates(keys.rest, Count(counts[1]), sizes, 0)
  }

  ghost predicate IgnoresBuffer(base: Snap, data: seq<byte>, sizes: int -> int) {
    forall a, b :: ApplyBytes(base, data, sizes, a) == ApplyBytes(base, data, sizes, b)
  }

  // ---------- settled payloads

  lemma {:induction false} ShortReadEnds(s: seq<byte>, n: nat)
    requires |ReadUpTo(s, n).0| < n
    ensures Varint.Decode(ReadUpTo(s, n).1).Bad?
    decreases n
  {
    hide Varint.Decode;
    if Varint.Decode(s).Ok? {
      ShortReadEnds(Varint.Decode(s).rest, n - 1);
    }
  }

  predicate Agree(a: seq<int>, b: seq<int>, n: nat) {
    n <= |a| && n <= |b| && a[..n] == b[..n]
  }

  lemma OverwriteAgrees(a: seq<int>, b: seq<int>, vs: seq<int>, size: nat, cover: nat)
    requires Agree(a, b, cover) && |vs| <= size
    ensures |vs| == size ==> Agree(Overwrite(a, vs, size), Overwrite(b, vs, size), Max(cover, size))
    ensures size <= cover ==> Overwrite(a, vs, size)[..size] == Overwrite(b, vs, size)[..size]
  {
    var c, d := Overwrite(a, vs, size), Overwrite(b, vs, size);
    if size <= cover {
      assert forall i :: 0 <= i < cover ==> a[..cover][i] == a[i] && b[..cover][i] == b[i];
      assert forall i :: 0 <= i < cover ==> c[i] == d[i];
    } else if |vs| == size {
      assert c[..size] == vs == d[..size];
    }
  }

  lemma {:induction false} SettledUpdatesIgnore(s: seq<byte>, n: nat, sizes: int -> int, cover: nat,
                                                a: seq<int>, b: seq<int>)
    requires SettledUpdates(s, n, sizes, cover) && Agree(a, b, cover)
    ensures ReadUpdates(s, n, sizes, a) == ReadUpdates(s, n, sizes, b)
    decreases n
  {
    hide Overwrite, Agree, Varint.Decode, ReadUpTo;
    if n > 0 && ReadHead(s, sizes).Ok? && ReadHead(s, sizes).value.size >= 0 {
      var h := ReadHead(s, sizes);
      var size := h.value.size;
      var (vs, rest) := ReadUpTo(h.rest, size);
      OverwriteAgrees(a, b, vs, size, cover);
      var c, d := Overwrite(a, vs, size), Overwrite(b, vs, size);
      if |vs| == size {
        FrontOfOverwrite(a, vs);
        FrontOfOverwrite(b, vs);
        SettledUpdatesIgnore(rest, n - 1, sizes, Max(cover, size), c, d);
      } else if n > 1 {
        ShortReadEnds(h.rest, size);
        assert ReadHead(rest, sizes).Bad?;
      }
    }
  }

  lemma FrontOfOverwrite(stale: seq<int>, vs: seq<int>)
    ensures Overwrite(stale, vs, |vs|)[..|vs|] == vs
  {
  }

  // ---------- payloads that are not settled

  /** The size of the update that is cut off. */
  function CutSize(s: seq<byte>, n: nat, sizes: int -> int): nat
    decreases n
  {
    if n == 0 || ReadHead(s, sizes).Bad? || ReadHead(s, sizes).value.size < 0 then 0
    else
      var h := ReadHead(s, sizes);
      var (vs, rest) := ReadUpTo(h.rest, h.value.size);
      if |vs| < h.value.size then h.value.size else CutSize(rest, n - 1, sizes)
  }

  lemma {:induction false} CutIsLongest(s: seq<byte>, n: nat, sizes: int -> int, cover: nat)
    requires !SettledUpdates(s, n, sizes, cover)
    ensures CutSize(s, n, sizes) > cover
    decreases n
  {
    hide ReadHead, ReadUpTo;
    var h := ReadHead(s, sizes);
    var (vs, rest) := ReadUpTo(h.rest, h.value.size);
    if |vs| == h.value.size {
      CutIsLongest(rest, n - 1, sizes, Max(cover, h.value.size));
    }
  }

  lemma OverwriteKeeps(stale: seq<int>, vs: seq<int>, size: nat, i: nat)
    requires |vs| <= size <= |stale| && |vs| <= i < |stale|
    ensures |Overwrite(stale, vs, size)| == |stale| && Overwrite(stale, vs, size)[i] == stale[i]
  {
  }

  /** Both decode to n updates of the same keys, whose last ones differ in the m-th field. */
  predicate DifferAtEnd(ra: Result<seq<Update>>, rb: Result<seq<Update>>, n: nat, m: nat) {
    && n > 0 && m > 0 && ra.Success? && rb.Success? && |ra.value| == |rb.value| == n
    && ra.value[n - 1].key == rb.value[n - 1].key
    && |ra.value[n - 1].diffs| == |rb.value[n - 1].diffs| == m
    && ra.value[n - 1].diffs[m - 1] != rb.value[n - 1].diffs[m - 1]
  }

  lemma ReadNext(s: seq<byte>, n: nat, sizes: int -> int, stale: seq<int>)
    requires n > 0 && ReadHead(s, sizes).Ok? && ReadHead(s, sizes).value.size >= 0
    ensures var h := ReadHead(s, sizes);
      var (vs, rest) := ReadUpTo(h.rest, h.value.size);
      var buf := Overwrite(stale, vs, h.value.size);
      var later := ReadUpdates(rest, n - 1, sizes, buf);
      ReadUpdates(s, n, sizes, stale)
        == if later.Failure? then later else Success([Update(h.value.key, buf[..h.value.size])] + later.value)
  {
    hide ReadHead, ReadUpTo, Overwrite;
  }

  /** Two buffers that differ in the cut update's last place give updates that differ there. */
  lemma {:induction false} CutUpdateShows(s: seq<byte>, n: nat, sizes: int -> int, cover: nat, a: seq<int>, b: seq<int>)
    requires !SettledUpdates(s, n, sizes, cover)
    requires var m := CutSize(s, n, sizes); 0 < m && m <= |a| && m <= |b| && a[m - 1] != b[m - 1]
    ensures DifferAtEnd(ReadUpdates(s, n, sizes, a), ReadUpdates(s, n, sizes, b), n, CutSize(s, n, sizes))
    decreases n
  {
    hide ReadHead, ReadUpTo, Overwrite, ReadUpdates;
    var h := ReadHead(s, sizes);
    var size, m := h.value.size, CutSize(s, n, sizes);
    var (vs, rest) := ReadUpTo(h.rest, size);
    ReadNext(s, n, sizes, a);
    ReadNext(s, n, sizes, b);
    if |vs| == size {
      CutIsLongest(rest, n - 1, sizes, Max(cover, size));
      OverwriteKeeps(a, vs, size, m - 1);
      OverwriteKeeps(b, vs, size, m - 1);
      CutUpdateShows(rest, n - 1, sizes, Max(cover, size), Overwrite(a, vs, size), Overwrite(b, vs, size));
    } else {
      OverwriteKeeps(a, vs, size, m - 1);
      OverwriteKeeps(b, vs, size, m - 1);
      NoUpdates(rest, sizes, Overwrite(a, vs, size));
      NoUpdates(rest, sizes, Overwrite(b, vs, size));
    }
  }

  lemma UnsettledShows(base: Snap, data: seq<byte>, sizes: int -> int)
    requires !Settled(data, sizes)
    ensures !IgnoresBuffer(base, data, sizes)
  {
    hide ReadUpdates, SettledUpdates, CutSize, Merge;
    var counts := ReadInts(data, 3);
    var keys := ReadInts(counts.rest, Count(counts.value[0]));
    var n := Count(counts.value[1]);
    var m := CutSize(keys.rest, n, sizes);
    CutIsLongest(keys.rest, n, sizes, 0);
    var a, b := seq(m, _ => 0), seq(m, _ => 1);
    CutUpdateShows(keys.rest, n, sizes, 0, a, b);
    var us, vs := ReadUpdates(keys.rest, n, sizes, a).value, ReadUpdates(keys.rest, n, sizes, b).value;
    LastUpdateShows(base, Delta(KeysOf(keys.value), us), Delta(KeysOf(keys.value), vs), m - 1);
    assert ApplyBytes(base, data, sizes, a) != ApplyBytes(base, data, sizes, b);
  }

  lemma LastUpdateShows(base: Snap, d: Delta, e: Delta, f: nat)
    requires d.updates != [] && |d.updates| == |e.updates|
    requires var n := |d.updates| - 1;
      && d.updates[n].key == e.updates[n].key
      && f < |d.updates[n].diffs| == |e.updates[n].diffs| && d.updates[n].diffs[f] != e.updates[n].diffs[f]
    ensures Apply(base, d) != Apply(base, e)
  {
    var n := |d.updates| - 1;
    var k := d.updates[n].key;
    assert Updated(d.updates, k) && Updated(e.updates, k);
    assert k in Apply(base, d) && k in Apply(base, e);
    assert Apply(base, d)[k][f] != Apply(base, e)[k][f];
  }

  /** A payload gives the same result, snapshot or error, for every buffer if and only if it is settled. */
  lemma IgnoresBufferIffSettled(base: Snap, data: seq<byte>, sizes: int -> int)
    ensures IgnoresBuffer(base, data, sizes) <==> Settled(data, sizes)
  {
    hide ReadUpdates, SettledUpdates, IgnoresBuffer, Apply;
    if Settled(data, sizes) {
      forall a, b ensures ApplyBytes(base, data, sizes, a) == ApplyBytes(base, data, sizes, b) {
        if data != [] && ReadInts(data, 3).Ok? {
          var counts := ReadInts(data, 3);
          var keys := ReadInts(counts.rest, Count(counts.value[0]));
          if keys.Ok? {
            NothingToAgree(a, b);
            SettledUpdatesIgnore(keys.rest, Count(counts.value[1]), sizes, 0, a, b);
          }
        }
      }
      AllBuffers(base, data, sizes);
    } else {
      UnsettledShows(base, data, sizes);
    }
  }

  lemma NothingToAgree(a: seq<int>, b: seq<int>)
    ensures Agree(a, b, 0)
  {
  }

  lemma AllBuffers(base: Snap, data: seq<byte>, sizes: int -> int)
    requires forall a, b :: ApplyBytes(base, data, sizes, a) == ApplyBytes(base, data, sizes, b)
    ensures IgnoresBuffer(base, data, sizes)
  {
  }

  // ---------- complete payloads, and others

  lemma {:induction false} CompleteUpdatesSettled(s: seq<byte>, n: nat, sizes: int -> int, cover: nat)
    requires CompleteUpdates(s, n, sizes)
    ensures SettledUpdates(s, n, sizes, cover)
    decreases n
  {
    hide ReadHead, ReadInts, ReadUpTo;
    if n > 0 {
      var h := ReadHead(s, sizes);
      ReadUpToAll(h.rest, h.value.size);
      CompleteUpdatesSettled(ReadInts(h.rest, h.value.size).rest, n - 1, sizes, Max(cover, h.value.size));
    }
  }

  lemma CompleteIsSettled(data: seq<byte>, sizes: int -> int)
    requires Complete(data, sizes)
    ensures Settled(data, sizes)
  {
    hide CompleteUpdates, SettledUpdates;
    if data != [] {
      var counts := ReadInts(data, 3);
      var keys := ReadInts(counts.rest, Count(counts.value[0]));
      CompleteUpdatesSettled(keys.rest, Count(counts.value[1]), sizes, 0);
    }
  }

  const TWO_UPDATES: seq<int> := [5, 7, 2, 1, 2, 5, 8, 2, 3]

  /**
   Settled payloads need not be complete: here the second update lacks a field, and shows the second field
   of the first one, whatever the buffer held before.
   */
  lemma MissingFieldShowsOwnUpdate(sizes: int -> int, stale: seq<int>)
    requires sizes(5) < 0
    ensures var data := AppendInts([0, 2, 0] + TWO_UPDATES);
      && !Complete(data, sizes) && Settled(data, sizes)
      && ApplyBytes(map[], data, sizes, stale) == Success(map[Key(5, 7) := [1, 2], Key(5, 8) := [3, 2]])
  {
    hide Varint.Decode, AppendInts, ReadInts, Apply, ReadUpdates, SettledUpdates, CompleteUpdates;
    var data, s := AppendInts([0, 2, 0] + TWO_UPDATES), AppendInts(TWO_UPDATES);
    TwoUpdatesCounts();
    TwoUpdatesRead(sizes, stale);
    var us := [Update(Key(5, 7), [1, 2]), Update(Key(5, 8), [3, 2])];
    assert ParseDelta(data, sizes, stale) == Success(Delta([], us));
    TwoUpdatesApplied();
  }

  lemma TwoUpdatesCounts()
    ensures var data, s := AppendInts([0, 2, 0] + TWO_UPDATES), AppendInts(TWO_UPDATES);
      data != [] && ReadInts(data, 3) == Ok([0, 2, 0], s) && ReadInts(s, 0) == Ok([], s) && KeysOf([]) == []
  {
    hide Varint.Decode, Varint.PackInt;
    AppendIntsJoin([0, 2, 0], TWO_UPDATES);
    ReadIntsOfAppend([0, 2, 0], AppendInts(TWO_UPDATES));
    assert |KeysOf([])| == 0;
  }

  lemma FirstUpdate(sizes: int -> int)
    requires sizes(5) < 0
    ensures var s := AppendInts(TWO_UPDATES);
      && ReadHead(s, sizes) == Ok(Head(Key(5, 7), 2), AppendInts([1, 2, 5, 8, 2, 3]))
      && ReadUpTo(AppendInts([1, 2, 5, 8, 2, 3]), 2) == ([1, 2], AppendInts([5, 8, 2, 3]))
      && ReadInts(AppendInts([1, 2, 5, 8, 2, 3]), 2) == Ok([1, 2], AppendInts([5, 8, 2, 3]))
  {
    hide Varint.Decode, Varint.PackInt, AppendInts, ReadInts;
    HeadOfInts(sizes, 5, 7, 2, [1, 2, 5, 8, 2, 3]);
    assert TWO_UPDATES == [5, 7, 2] + [1, 2, 5, 8, 2, 3];
    assert [1, 2, 5, 8, 2, 3] == [1, 2] + [5, 8, 2, 3];
    AppendIntsJoin([1, 2], [5, 8, 2, 3]);
    ReadIntsOfAppend([1, 2], AppendInts([5, 8, 2, 3]));
    ReadUpToAll(AppendInts([1, 2, 5, 8, 2, 3]), 2);
  }

  lemma SecondUpdate(sizes: int -> int)
    requires sizes(5) < 0
    ensures ReadHead(AppendInts([5, 8, 2, 3]), sizes) == Ok(Head(Key(5, 8), 2), AppendInts([3]))
    ensures ReadUpTo(AppendInts([3]), 2) == ([3], []) && ReadInts(AppendInts([3]), 2).Bad?
  {
    hide Varint.Decode, Varint.PackInt;
    HeadOfInts(sizes, 5, 8, 2, [3]);
    assert [5, 8, 2, 3] == [5, 8, 2] + [3];
    assert [3][1..] == [] && AppendInts([3]) == Varint.PackInt(3) + [];
    Varint.DecodeOfPack(3, []);
    Varint.DecodeNothing();
    assert ReadUpTo([], 1) == ([], []) && [3] + [] == [3];
    assert ReadUpTo(AppendInts([3]), 2) == ([3] + ReadUpTo([], 1).0, ReadUpTo([], 1).1);
  }

  lemma HeadOfInts(sizes: int -> int, typeID: int, id: int, size: int, rest: seq<int>)
    requires IsInt32(typeID) && IsInt32(id) && IsInt32(size) && sizes(typeID) < 0
    ensures ReadHead(AppendInts([typeID, id, size] + rest), sizes) == Ok(Head(Key(typeID, id), size), AppendInts(rest))
  {
    hide Varint.Decode, Varint.PackInt, AppendInts;
    AppendIntsJoin([typeID, id, size], rest);
    ReadIntsOfAppend([typeID, id, size], AppendInts(rest));
    ThreeInts(sizes, AppendInts([typeID, id, size]) + AppendInts(rest), typeID, id, size, AppendInts(rest));
  }

  lemma ThreeInts(sizes: int -> int, s: seq<byte>, a: int, b: int, c: int, rest: seq<byte>)
    requires ReadInts(s, 3) == Ok([a, b, c], rest) && sizes(a) < 0
    ensures ReadHead(s, sizes) == Ok(Head(Key(a, b), c), rest)
  {
    hide Varint.Decode;
    var d := Varint.Decode(s);
    NextOfInts(s, 3, [a, b, c], rest);
    NextOfInts(d.rest, 2, [b, c], rest);
    NextOfInts(Varint.Decode(d.rest).rest, 1, [c], rest);
  }

  lemma NextOfInts(s: seq<byte>, n: nat, vs: seq<int>, rest: seq<byte>)
    requires n > 0 && ReadInts(s, n) == Ok(vs, rest)
    ensures var d := Varint.Decode(s);
      vs != [] && d.Ok? && d.value == vs[0] && ReadInts(d.rest, n - 1) == Ok(vs[1..], rest)
    ensures n == 1 ==> Varint.Decode(s).rest == rest
  {
    hide Varint.Decode;
    var d := Varint.Decode(s);
    var later := ReadInts(d.rest, n - 1);
    assert vs == [d.value] + later.value;
  }

  lemma TwoUpdatesRead(sizes: int -> int, stale: seq<int>)
    requires sizes(5) < 0
    ensures var s := AppendInts(TWO_UPDATES);
      && !CompleteUpdates(s, 2, sizes) && SettledUpdates(s, 2, sizes, 0)
      && ReadUpdates(s, 2, sizes, stale) == Success([Update(Key(5, 7), [1, 2]), Update(Key(5, 8), [3, 2])])
  {
    hide ReadHead, ReadUpTo, ReadInts, AppendInts, Overwrite;
    FirstUpdate(sizes);
    SecondUpdate(sizes);
    var buf := Overwrite(stale, [1, 2], 2);
    var buf' := Overwrite(buf, [3], 2);
    assert buf[..2] == [1, 2] && buf'[..2] == [3, 2] by {
      OverwriteTwice(stale);
    }
    NoUpdates([], sizes, buf');
    assert [Update(Key(5, 8), [3, 2])] + [] == [Update(Key(5, 8), [3, 2])];
    ReadNext(AppendInts([5, 8, 2, 3]), 1, sizes, buf);
    assert [Update(Key(5, 7), [1, 2])] + [Update(Key(5, 8), [3, 2])] == [Update(Key(5, 7), [1, 2]), Update(Key(5, 8), [3, 2])];
    ReadNext(AppendInts(TWO_UPDATES), 2, sizes, stale);
  }

  lemma OverwriteTwice(stale: seq<int>)
    ensures var buf := Overwrite(stale, [1, 2], 2);
      buf[..2] == [1, 2] && Overwrite(buf, [3], 2)[..2] == [3, 2]
  {
  }

  lemma TwoUpdatesApplied()
    ensures Apply(map[], Delta([], [Update(Key(5, 7), [1, 2]), Update(Key(5, 8), [3, 2])]))
         == map[Key(5, 7) := [1, 2], Key(5, 8) := [3, 2]]
  {
    var u, v := Update(Key(5, 7), [1, 2]), Update(Key(5, 8), [3, 2]);
    PutAllIsApply(map[], Delta([], [u, v]));
    PutOne([], u);
    PutOne([u], v);
  }

  lemma PutOne(us: seq<Update>, u: Update)
    ensures PutAll(map[], map[], us + [u]) == PutAll(map[], map[], us)[u.key := u.diffs]
    ensures PutAll(map[], map[], []) == map[]
  {
    hide Merge;
    assert (us + [u])[..|us|] == us;
    MergeNothing(u.diffs);
  }

  lemma MergeNothing(diffs: seq<int>)
    ensures Merge([], diffs) == diffs
  {
  }
}
