/**
 Where reading bytes that come from outside panics: a negative argument count in a teehistorian, a negative
 item size in a delta, a negative number of snapshot parts. The first two readers panic exactly there.
 */
module Panics {
  import opened Wire
  import opened Cursor
  import opened Teehistorian
  import Varint
  import S = Snapshot
  import A = Assembly

  // ---------- integers and strings

  lemma {:induction false} TailNeverPanics(s: seq<byte>, i: nat)
    requires i <= 3
    ensures Varint.DecodeTail(s, i) != Bad(Panic)
    decreases 3 - i
  {
    if i < 3 && s != [] {
      TailNeverPanics(s[1..], i + 1);
    }
  }

  lemma DecodeNeverPanics(s: seq<byte>)
    ensures Varint.Decode(s) != Bad(Panic)
  {
    if s != [] {
      TailNeverPanics(s[1..], 0);
    }
  }

  lemma {:induction false} IntsNeverPanic(s: seq<byte>, n: nat)
    ensures ReadInts(s, n) != Bad(Panic)
    decreases n
  {
    hide Varint.Decode;
    DecodeNeverPanics(s);
    if n > 0 && Varint.Decode(s).Ok? {
      IntsNeverPanic(Varint.Decode(s).rest, n - 1);
    }
  }

  lemma {:induction false} StringNeverPanics(s: seq<byte>)
    ensures ReadString(s) != Bad(Panic)
  {
    if s != [] {
      StringNeverPanics(s[1..]);
    }
  }

  lemma {:induction false} StringsNeverPanic(s: seq<byte>, n: nat)
    ensures ReadStrings(s, n) != Bad(Panic)
    decreases n
  {
    hide ReadString;
    StringNeverPanics(s);
    if n > 0 && ReadString(s).Ok? {
      StringsNeverPanic(ReadString(s).rest, n - 1);
    }
  }

  // ---------- a teehistorian

  /** A console command whose argument count is there and negative. */
  predicate NegativeCount(s: seq<byte>) {
    var head := Varint.Decode(s);
    && head.Ok? && head.value == -CONSOLE_COMMAND
    && var ids := ReadInts(head.rest, 2);
    && ids.Ok?
    && var cmd := ReadString(ids.rest);
    && cmd.Ok?
    && var num := Varint.Decode(cmd.rest);
    num.Ok? && num.value < 0
  }

  lemma RecordPanicsIff(s: seq<byte>)
    ensures ReadRecord(s) == Bad(Panic) <==> NegativeCount(s)
  {
    hide Varint.Decode;
    DecodeNeverPanics(s);
    if Varint.Decode(s).Ok? {
      var s1 := Varint.Decode(s).rest;
      BodyPanicsIff(Varint.Decode(s).value, s1);
      if ReadInts(s1, 2).Ok? && ReadString(ReadInts(s1, 2).rest).Ok? {
        OneInt(ReadString(ReadInts(s1, 2).rest).rest);
      }
    }
  }

  lemma OneInt(s: seq<byte>)
    ensures var r := Varint.Decode(s);
      if r.Ok? then ReadInts(s, 1) == Ok([r.value], r.rest) else ReadInts(s, 1).Bad?
  {
    hide Varint.Decode;
    if Varint.Decode(s).Ok? {
      assert [Varint.Decode(s).value] + [] == [Varint.Decode(s).value];
    }
  }

  lemma BodyPanicsIff(n: int, s: seq<byte>)
    ensures ReadBody(n, s) == Bad(Panic) <==> n == -CONSOLE_COMMAND && ReadConsoleCommand(s) == Bad(Panic)
    ensures ReadConsoleCommand(s) == Bad(Panic) <==>
      var ids := ReadInts(s, 2);
      && ids.Ok? && ReadString(ids.rest).Ok?
      && var num := ReadInts(ReadString(ids.rest).rest, 1);
      num.Ok? && num.value[0] < 0
  {
    hide Varint.Decode, ReadInts, ReadString, ReadStrings;
    IntsNeverPanic(s, 1);
    IntsNeverPanic(s, 2);
    IntsNeverPanic(s, 3);
    IntsNeverPanic(s, 11);
    if ReadInts(s, 1).Ok? {
      StringNeverPanics(ReadInts(s, 1).rest);
    }
    if ReadInts(s, 2).Ok? {
      CommandPanicsIff(ReadInts(s, 2).rest);
    }
    if ReadRaw(s, 16).Ok? {
      IntsNeverPanic(ReadRaw(s, 16).rest, 1);
    }
  }

  lemma CommandPanicsIff(s: seq<byte>)
    ensures ReadString(s) != Bad(Panic)
    ensures ReadString(s).Ok? ==>
      var num := ReadInts(ReadString(s).rest, 1);
      num != Bad(Panic) && (num.Ok? && num.value[0] >= 0 ==> ReadStrings(num.rest, num.value[0]) != Bad(Panic))
  {
    hide Varint.Decode, ReadInts, ReadString, ReadStrings;
    StringNeverPanics(s);
    if ReadString(s).Ok? {
      IntsNeverPanic(ReadString(s).rest, 1);
      var num := ReadInts(ReadString(s).rest, 1);
      if num.Ok? && num.value[0] >= 0 {
        StringsNeverPanic(num.rest, num.value[0]);
      }
    }
  }

  /** Reading one record after the other comes to such a command. */
  predicate ComesToNegativeCount(s: seq<byte>)
    decreases |s|
  {
    s != [] &&
    (NegativeCount(s) ||
     match ReadRecord(s)
     case Bad(_) => false
     case Ok(rec, rest) => !rec.Finish? && |rest| < |s| && ComesToNegativeCount(rest))
  }

  lemma {:induction false} ParsePanicsIff(s: seq<byte>)
    ensures ParseBody(s) == Failure(Panic) <==> ComesToNegativeCount(s)
    decreases |s|
  {
    hide Varint.Decode, ReadBody, NegativeCount;
    if s != [] {
      RecordPanicsIff(s);
      if ReadRecord(s).Ok? {
        ReadBodyShrinks(Varint.Decode(s).value, Varint.Decode(s).rest);
        ParsePanicsIff(ReadRecord(s).rest);
      }
    }
  }

  lemma NegativeCountExample()
    ensures ParseBody(AppendInts([-CONSOLE_COMMAND, 0, 0]) + AppendStr([]) + AppendInts([-1])) == Failure(Panic)
  {
    hide Varint.Decode, Varint.PackInt, AppendInts, ReadInts, ParseBody, ReadRecord;
    var s2 := AppendStr([]) + AppendInts([-1]);
    var s := AppendInts([-CONSOLE_COMMAND, 0, 0]) + AppendStr([]) + AppendInts([-1]);
    assert s == AppendInts([-CONSOLE_COMMAND, 0, 0]) + s2;
    FirstInt([-CONSOLE_COMMAND, 0, 0], s2);
    ReadIntsOfAppend([0, 0], s2);
    ReadStringOfAppend([], AppendInts([-1]));
    FirstInt([-1], []);
    assert AppendInts([-1]) + [] == AppendInts([-1]);
    assert NegativeCount(s);
    assert s != [];
    ParsePanicsIff(s);
  }

  lemma FirstInt(vs: seq<int>, rest: seq<byte>)
    requires vs != [] && IsInt32(vs[0])
    ensures Varint.Decode(AppendInts(vs) + rest) == Ok(vs[0], AppendInts(vs[1..]) + rest)
  {
    hide Varint.Decode, Varint.PackInt;
    Varint.DecodeOfPack(vs[0], AppendInts(vs[1..]) + rest);
    assert AppendInts(vs) + rest == Varint.PackInt(vs[0]) + (AppendInts(vs[1..]) + rest);
  }

  // ---------- a delta

  /** One of the updates, each after its fields are read, has a negative size of its own. */
  predicate NegativeSize(s: seq<byte>, n: nat, sizes: int -> int)
    decreases n
  {
    n > 0 &&
    match S.ReadHead(s, sizes)
    case Bad(_) => false
    case Ok(h, rest) => h.size < 0 || NegativeSize(S.ReadUpTo(rest, h.size).1, n - 1, sizes)
  }

  lemma HeadNeverPanics(s: seq<byte>, sizes: int -> int)
    ensures S.ReadHead(s, sizes) != Bad(Panic)
  {
    hide Varint.Decode;
    DecodeNeverPanics(s);
    if Varint.Decode(s).Ok? {
      var s1 := Varint.Decode(s).rest;
      DecodeNeverPanics(s1);
      if Varint.Decode(s1).Ok? {
        DecodeNeverPanics(Varint.Decode(s1).rest);
      }
    }
  }

  lemma {:induction false} UpdatesPanicIff(s: seq<byte>, n: nat, sizes: int -> int, stale: seq<int>)
    ensures S.ReadUpdates(s, n, sizes, stale) == Failure(Panic) <==> NegativeSize(s, n, sizes)
    decreases n
  {
    hide S.ReadHead, S.ReadUpTo, S.Overwrite;
    HeadNeverPanics(s, sizes);
    if n > 0 && S.ReadHead(s, sizes).Ok? && S.ReadHead(s, sizes).value.size >= 0 {
      var h := S.ReadHead(s, sizes);
      var r := S.ReadUpTo(h.rest, h.value.size);
      UpdatesPanicIff(r.1, n - 1, sizes, S.Overwrite(stale, r.0, h.value.size));
    }
  }

  /** Whatever the base and the buffer: a delta panics exactly when it comes to an update of negative size. */
  lemma DeltaPanicsIff(base: S.Snap, data: seq<byte>, sizes: int -> int, stale: seq<int>)
    ensures S.ApplyBytes(base, data, sizes, stale) == Failure(Panic) <==>
      data != [] && ReadInts(data, 3).Ok? &&
      var counts := ReadInts(data, 3);
      var keys := ReadInts(counts.rest, S.Count(counts.value[0]));
      keys.Ok? && NegativeSize(keys.rest, S.Count(counts.value[1]), sizes)
  {
    hide ReadInts, S.ReadUpdates, NegativeSize, S.Apply;
    IntsNeverPanic(data, 3);
    if ReadInts(data, 3).Ok? {
      var counts := ReadInts(data, 3);
      IntsNeverPanic(counts.rest, S.Count(counts.value[0]));
      var keys := ReadInts(counts.rest, S.Count(counts.value[0]));
      if keys.Ok? {
        UpdatesPanicIff(keys.rest, S.Count(counts.value[1]), sizes, stale);
      }
    }
  }

  /** One update, of a type without a size of its own, whose size in the stream is -1. */
  lemma NegativeSizeExample(base: S.Snap, sizes: int -> int, stale: seq<int>)
    requires sizes(5) < 0
    ensures S.ApplyBytes(base, AppendInts([0, 1, 0, 5, 7, -1]), sizes, stale) == Failure(Panic)
  {
    hide Varint.Decode, Varint.PackInt, AppendInts, ReadInts, S.ApplyBytes;
    var data, s := AppendInts([0, 1, 0, 5, 7, -1]), AppendInts([5, 7, -1]);
    assert [0, 1, 0, 5, 7, -1] == [0, 1, 0] + [5, 7, -1];
    AppendIntsJoin([0, 1, 0], [5, 7, -1]);
    ReadIntsOfAppend([0, 1, 0], s);
    NoInts(s);
    FirstInt([5, 7, -1], []);
    FirstInt([7, -1], []);
    FirstInt([-1], []);
    assert s + [] == s && AppendInts([7, -1]) + [] == AppendInts([7, -1]) && AppendInts([-1]) + [] == AppendInts([-1]);
    assert NegativeSize(s, 1, sizes);
    FirstInt([0, 1, 0, 5, 7, -1], []);
    assert data + [] == data;
    DeltaPanicsIff(base, data, sizes, stale);
  }

  lemma NoInts(s: seq<byte>)
    ensures ReadInts(s, 0) == Ok([], s)
  {
  }

  // ---------- the parts of a snapshot

  /** A message that announces -1 parts is read, and ProcessSnapMulti panics on it. */
  lemma NegativePartsExample(crc: int, rest: seq<byte>)
    requires IsInt32(crc)
    ensures var p := A.ReadPart(A.WritePart(A.Part(0, 0, -1, 0, []), crc) + rest);
      p.Ok? && p.value.numParts < 0
  {
    hide A.ReadPart, A.WritePart;
    A.PartRoundTrip(A.Part(0, 0, -1, 0, []), crc, rest);
  }
}
